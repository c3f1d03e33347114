# DQ1 password codec and pattern generator, in Dafny

This project models the password codec of the first Dragon Quest and its pattern generator, then proves properties of the model. The original library is written in Rust.

A game state is the following record:
- the hero's name of up to four characters;
- experience and gold (16 bits each);
- weapon, armor and shield IDs;
- herb and key counts;
- eight inventory tool IDs;
- five event flags;
- a three-bit salt.

The codec works in these steps:
- It packs the state into 15 bytes.
- Byte 0 is the low byte of a CRC over bytes 1 to 14. The CRC is fed MSB first with the generator polynomial 0x1021 (x^16 + x^12 + x^5 + 1, the CRC of ITU-T Recommendation V.41). It starts from zero and has no final XOR.
- It cuts the bytes into twenty six-bit values ("sixes"), four per group of three bytes.
- It writes each six as a running sum modulo 64. The "cum" is the previous cum plus the six plus 4.
- It spells each cum with a 64-letter hiragana alphabet. The hero's name uses a second 64-character alphabet.

Decoding does the following:
- It strips whitespace from the text and requires exactly 20 password characters.
- It inverts the character mapping and the packing.
- It checks the CRC, then the herb count, the key count and the inventory.

The generator fills in a pattern whose `?` positions are wildcards:
- It enumerates the two head characters.
- It runs a forward dynamic program over the 18 tail sixes. Each DP cell is keyed by position, cum, CRC low byte, and whether the previous six had its top two bits set.
- It prunes sixes that would make the herb count, the key count or a tool ID invalid.
- It rebuilds byte arrays by a depth-first search over the stored back-pointers.

## Modules

| file | module | what it models |
|---|---|---|
| `errors.dfy` | `Errors` | the four error kinds and `Result`/`Option` |
| `crc.dfy` | `Crc` | `crc_update`: a bit-serial specification, the loop, and its algebra (linearity, splitting) |
| `alphabet.dfy` | `Alphabet` | the password alphabet and the name alphabet, with both lookups in each direction |
| `codec.dfy` | `Codec` | the specification of the text coding: six-bit packing, running cums, `PasswordOf`/`BytesOfPassword` |
| `crctables.dfy` | `CrcTables` | the generator's CRC tables as functions, and the CRC arithmetic behind them |
| `normalize.dfy` | `Normalize` | name, password and pattern normalization |
| `validate.dfy` | `Validate` | the `validate_*` range checks |
| `gamestate.dfy` | `GameStates` | the `GameState` record, `validate`, `normalize`, `Default` |
| `encode.dfy` | `Encoder` | `encode`, `state_to_bytes`, `pack_hero_name`, `bytes_to_password` |
| `decode.dfy` | `Decoder` | `decode`, `password_to_bytes`, `check_bytes_crc`, `bytes_to_state`, `unpack_hero_name` |
| `generatespec.dfy` | `GenerateSpec` | the specification of the generator: `DpTrace`, `cum_range`, pruning, DP paths |
| `generate.dfy` | `Generate` | the generator itself: table builders, DP fill, the `Dfs` class, `generate` |
| `vectors.dfy` | `Vectors` | the repository's unit-test cases, stated on the model |

The model follows the shape of each Rust function:
- Rust functions that loop over mutable state are Dafny methods proved against a specification function. These are `crc_update`, `state_to_bytes`, `pack_hero_name`, `bytes_to_password`, `password_to_bytes`, the three table builders, `sixs_to_bytes`, `generate_dp`, the DFS and `generate`.
- The generator's DP table is an `array4`. The six buffer of the DFS is an `array`. The DFS state is a class `Dfs` whose `bytess` field the search appends to.
- Rust functions built from expressions and iterator pipelines are Dafny functions. These are normalization, validation, `bytes_to_state`, `check_bytes_crc`, `encode` and `decode`.
- Rust `u8`/`u16` values are `bv8`/`bv16`. Their wrapping subtraction and dropped shift bits are therefore those of the source.

## Model

| member | source | states |
|---|---|---|
| Crc.CrcUpdate | src/crc.rs:2-16 | The loop's register is the bit-serial CRC update of the `nBits` low data bits: they are XORed into the register's top bits, MSB first, and the register is clocked once per bit with polynomial 0x1021. Requires 1 ≤ nBits ≤ 8. |
| Crc.LowBitsOnly | src/crc.rs:3 | Only the low `nBits` bits of the data influence the update: the others are shifted out of the 16-bit register. |
| Crc.UpdateLinear | src/crc.rs:3-13 | The update is XOR-linear in the register and the data together: update(a^b, d^e) = update(a, d) ^ update(b, e). |
| Crc.UpdateZero | src/crc.rs:24-25 | A zero register fed zero data stays zero, for every width 1 to 8. |
| Crc.SmallVectors | src/crc.rs:24-29 | The unit-test cases: 0 stays 0, one 1 bit gives 0x1021, 2 bits give 0x2042, 3 in 2 bits gives 0x3063, and so do two 1-bit updates. |
| Crc.UpdateSplit | src/crc.rs:27-29 | An a-bit update followed by a b-bit update (a + b ≤ 8) equals one update with the concatenated bits. |
| Crc.KnownVector | src/crc.rs:30 | Two 8-bit updates of 0xFF from zero give 0x1D0F. |
| Crc.FoldBytes | src/encode.rs:59 | The 8-bit-at-a-time fold from 0 over a byte sequence equals the specification `Fold(Zero, bytes)`. |
| Crc.FoldAppend | src/decode.rs:84 | Folding a concatenation equals folding the second part from the CRC of the first. |
| Crc.ByteChange | src/decode.rs:226-229 | Feeding two different bytes into the same register gives two different low CRC bytes. |
| Alphabet.CumToPasswordChar | src/encode.rs:169-189 | The `CHARS` lookup of a cum below 64; no password character is the pattern wildcard '?'. |
| Alphabet.PasswordCharToCum | src/decode.rs:62-81 | The `phf` map lookup; every cum it returns fits in six bits. |
| Alphabet.CumToPasswordCharInverse | src/encode.rs:169-189 | For every cum below 64, `password_char_to_cum` returns that cum for the character `cum_to_password_char` gives it. |
| Alphabet.PasswordCharToCumInverse | src/decode.rs:62-81 | Whenever `password_char_to_cum` accepts a character, the cum is below 64 and spells that character back. |
| Alphabet.PasswordAlphabetExact | src/decode.rs:62-81 | `password_char_to_cum` accepts exactly the 64 characters that `cum_to_password_char` produces. |
| Alphabet.CumCovered | src/decode.rs:62-81 | Every value below 64 is the cum of some password character. |
| Alphabet.PackHeroNameChar | src/encode.rs:78-147 | The `phf` map lookup; every code it returns fits in six bits, and the long-vowel mark 'ー' has no code. |
| Alphabet.UnpackHeroNameChar | src/decode.rs:160-179 | The `CHARS` lookup of a code below 64; no name character is the long-vowel mark 'ー', which name normalization rewrites to '-'. |
| Alphabet.PackHeroNameCharInverse | src/encode.rs:78-147 | Whenever `pack_hero_name_char` accepts a character, the code is below 64 and unpacks to that character. |
| Alphabet.UnpackHeroNameCharInverse | src/decode.rs:160-179 | For every code below 64, packing the unpacked character gives the code back. |
| Alphabet.NameAlphabetExact | src/encode.rs:78-147 | `pack_hero_name_char` accepts exactly the 64 characters that `unpack_hero_name_char` produces. |
| Alphabet.CodeCovered | src/encode.rs:78-147 | Every value below 64 is the code of some name character. |
| Codec.SixesOfLength | src/encode.rs:155-164 | 3n bytes give 4n sixes, each below 64. |
| Codec.SixesOfGroup | src/encode.rs:156-162 | Sixes 4g to 4g+3 are cut from bytes 3g to 3g+2 as low 6 bits, 2 + 4 bits, 4 + 2 bits and high 6 bits. |
| Codec.BytesOfGroup | src/decode.rs:47-56 | Bytes 3g to 3g+2 are reassembled from sixes 4g to 4g+3 by the shifts of `password_to_bytes`. |
| Codec.BytesOfSixesOf | src/decode.rs:46-57 | Reassembling the sixes cut from a byte sequence gives the bytes back. |
| Codec.SixesOfBytesOf | src/decode.rs:46-57 | Cutting the bytes reassembled from sixes below 64 gives the sixes back. |
| Codec.CumsFromAt | src/encode.rs:154-163 | Cum k is (cum k−1 + six k + 4) mod 64, starting from cum 0. |
| Codec.SixesFromAt | src/decode.rs:39-44 | Six k is (cum k − cum k−1 − 4) mod 64, as `get_bits` computes it with the previous cum in `pre`. |
| Codec.SixesFromCumsFrom | src/decode.rs:41 | Differencing the running cums of sixes below 64 gives the sixes back. |
| Codec.CumsFromSixesFrom | src/encode.rs:156 | Running sums of the differenced cums give the cums back. |
| Codec.CharsOfValid | src/encode.rs:169-189 | Spelling cums below 64 gives password characters that read back as the same cums. |
| Codec.CumsOfValid | src/decode.rs:62-81 | Reading password characters gives cums below 64 that spell the same text. |
| Codec.PasswordOfValid | src/encode.rs:150-167 | The password of 15 bytes has exactly 20 characters, all from the password alphabet. |
| Codec.PasswordOfAt | src/encode.rs:154-164 | Character k of the password is the alphabet letter of cum k. |
| Codec.BytesOfPasswordOf | src/decode.rs:33-60 | password_to_bytes(bytes_to_password(b)) = b for every 15 bytes. |
| Codec.PasswordOfBytesOf | src/encode.rs:150-167 | bytes_to_password(password_to_bytes(p)) = p for every 20-character text over the password alphabet. |
| Normalize.NormalizeHeroNameChar | src/normalize.rs:50-110 | The expansion of one character has one or two characters. |
| Normalize.NameTableTargets | src/normalize.rs:50-110 | A character is either passed through unchanged or rewritten entirely into name characters. |
| Normalize.RewrittenCodes | src/normalize.rs:50-110 | Only the full-width digits, the voiced and semi-voiced kana, the combining and spacing marks, the dash variants and the ideographic space are rewritten. |
| Normalize.NameCharFixed | src/normalize.rs:50-110 | A name character is its own expansion. |
| Normalize.NormalizeHeroName | src/normalize.rs:12-48 | The result is Ok exactly when the expansion has at most 4 characters and all are name characters. The error is InvalidGameState. On success the result is the expansion padded to 4 with spaces. |
| Normalize.NormalizedNameFixed | src/normalize.rs:228-229 | A 4-character name over the name alphabet normalizes to itself. |
| Normalize.NormalizeHeroNameIdempotent | src/normalize.rs:12-48 | Normalizing a normalized name returns it unchanged. |
| Normalize.NormalizePassword | src/normalize.rs:118-150 | The result is Ok exactly when the text without whitespace has 20 characters, all from the password alphabet. It then returns that text; otherwise the error is InvalidPassword. |
| Normalize.ExpandPasswordStrips | src/normalize.rs:152-162 | The stripped text has no whitespace, and a text without whitespace is unchanged. |
| Normalize.NormalizedPasswordFixed | src/normalize.rs:240-244 | A 20-character text over the password alphabet normalizes to itself. |
| Normalize.NormalizePasswordIdempotent | src/normalize.rs:118-150 | Normalizing a normalized password returns it unchanged. |
| Normalize.NormalizePattern | src/normalize.rs:169-201 | The result is Ok exactly when the text, without whitespace and with '？' turned into '?', has 20 characters, each a password character or '?'. A wrong length gives InvalidPattern; a bad character gives InvalidPassword. |
| Normalize.NormalizedPatternFixed | src/normalize.rs:257-260 | A 20-character pattern over the password alphabet and '?' normalizes to itself. |
| Normalize.PasswordIsPattern | src/normalize.rs:169-201 | A normalized password is a normalized pattern. |
| Validate.ValidateHeroName | src/validate.rs:5-7 | Ok exactly when the name normalizes; the error is InvalidGameState. |
| Validate.ValidateHeroWeapon | src/validate.rs:10-21 | Ok exactly when the ID fits in 3 bits, i.e. is at most 7; the error is InvalidGameState. |
| Validate.ValidateHeroArmor | src/validate.rs:24-35 | Ok exactly when the ID is at most 7; the error is InvalidGameState. |
| Validate.ValidateHeroShield | src/validate.rs:38-49 | Ok exactly when the ID is at most 3; the error is InvalidGameState. |
| Validate.ValidateHerbCount | src/validate.rs:52-63 | Ok exactly when the count is at most 6; the error is InvalidGameState. |
| Validate.ValidateKeyCount | src/validate.rs:66-77 | Ok exactly when the count is at most 6; the error is InvalidGameState. |
| Validate.ValidateTool | src/validate.rs:100-111 | Ok exactly when the ID fits in 4 bits and is not 15, i.e. is at most 14. |
| Validate.ValidateToolsFrom | src/validate.rs:87-94 | The scan from index i is Ok exactly when every tool from i on is at most 14. |
| Validate.ValidateInventory | src/validate.rs:82-97 | Ok exactly when all 8 tools validate; the error is InvalidGameState. |
| Validate.ValidateSalt | src/validate.rs:114-125 | Ok exactly when the salt is at most 7; the error is InvalidGameState. |
| Validate.ValidatePassword | src/validate.rs:128-130 | Ok exactly when the password normalizes; the error is InvalidPassword. |
| Validate.ValidatePattern | src/validate.rs:133-135 | Ok exactly when the pattern normalizes, with the same error. |
| GameStates.GameState.Validate | src/game_state.rs:106-117 | Ok exactly when the name normalizes and every numeric field is in range; the error is InvalidGameState. |
| GameStates.GameState.Normalize | src/game_state.rs:124-128 | Fails exactly when the name does not normalize. Only the name changes, to 4 name characters. The result validates exactly when the original numbers are in range. |
| GameStates.NormalizeIdempotent | src/game_state.rs:124-128 | Normalizing a normalized state returns it unchanged. |
| GameStates.NormalizedStateFixed | src/game_state.rs:124-128 | A state whose name is already normalized is its own normalization. |
| GameStates.DefaultNormalize | src/game_state.rs:157-163 | The default state validates and normalizes to the name of four spaces. |
| Encoder.PackHeroName | src/encode.rs:67-75 | The loop writes the code of each of the 4 name characters. |
| Encoder.StateBytes | src/encode.rs:21-62 | 15 bytes: bytes 1 to 14 are the field layout, and byte 0 is the low byte of the CRC over bytes 1 to 14. |
| Encoder.StateToBytes | src/encode.rs:21-62 | The method fills the array to exactly `StateBytes(state)`. |
| Encoder.BytesToPassword | src/encode.rs:150-167 | The chunk loop with its running `cum` produces exactly `PasswordOf(bytes)`. |
| Encoder.PasswordChunk | src/encode.rs:155-164 | Each chunk appends the letters of its four cums to the password built so far. |
| Encoder.Encode | src/encode.rs:10-16 | Ok exactly when the state normalizes; numbers are not range-checked. The error is InvalidGameState. A result has 20 password characters. |
| Decoder.PasswordToBytes | src/decode.rs:33-60 | The loop with its captured `pre` produces exactly `BytesOfPassword(password)`. |
| Decoder.Chunk | src/decode.rs:46-57 | One iteration writes bytes 3g to 3g+2 of the specification and leaves `pre` at the group's last cum. |
| Decoder.GetBits | src/decode.rs:39-44 | Returns the character's cum and the six (cum − pre − 4) mod 64. |
| Decoder.CheckBytesCrc | src/decode.rs:83-91 | Ok exactly when byte 0 equals the low CRC byte of bytes 1 to 14. The error carries byte 0 and the full 16-bit CRC. |
| Decoder.StateBytesPassCrc | src/encode.rs:59 | The bytes of every state pass the CRC check. |
| Decoder.UnpackHeroName | src/decode.rs:153-157 | Four codes unpack to a 4-character name. |
| Decoder.UnpackPackedName | src/decode.rs:153-179 | Unpacking the codes of a normalized name gives the name back. |
| Decoder.PackUnpackedName | src/encode.rs:67-75 | Packing the name unpacked from four codes below 64 gives the codes back. |
| Decoder.BytesToState | src/decode.rs:94-150 | The fields are read from their bits, so their widths bound them: weapon, armor and salt ≤ 7, shield ≤ 3, herb, key and every tool ≤ 15. |
| Decoder.BytesToStateRanges | src/decode.rs:94-150 | Every decoded state has a normalized name: each of its four characters is a name character. |
| Decoder.BytesToStateBytes | src/decode.rs:94-150 | bytes_to_state(state_to_bytes(s)) = s for every in-range state with a normalized name. |
| Decoder.StateBytesOfState | src/decode.rs:94-150 | state_to_bytes(bytes_to_state(b)) = b for every 15 bytes that pass the CRC check. |
| Decoder.Decode | src/decode.rs:16-28 | Rejected text gives InvalidPassword. Every error is InvalidPassword, CrcMismatch or InvalidGameState. Every decoded state validates and has a normalized name. |
| Decoder.DecodeEncode | src/decode.rs:16-28 | decode(encode(s)) = s.normalize() for every valid state. |
| Decoder.EncodeDecode | src/encode.rs:10-16 | Re-encoding a decoded state gives the normalized password back. |
| Decoder.DecodeCrcMismatch | src/decode.rs:19-20 | A normalized password whose bytes fail the CRC decodes to CrcMismatch with byte 0 and the CRC. |
| Decoder.LastCharMismatch | src/decode.rs:225-229 | Replacing the last character of a decodable password by any other password character gives CrcMismatch. |
| CrcTables.FoldXor | src/generate.rs:127 | The CRC of a bytewise XOR of two sequences, from two XORed registers, is the XOR of the two CRCs. |
| CrcTables.BytesOfXor | src/generate.rs:276-286 | Packing the XOR of two six sequences is the XOR of the two packings. |
| CrcTables.PrefixCrcStep | src/generate.rs:127 | Adding six m to the sixes before it XORs the weight of that six at position m into the CRC. |
| CrcTables.PrefixCrcAll | src/decode.rs:84 | The CRC accumulated over all 20 sixes is the CRC over bytes 1 to 14. |
| CrcTables.WeightShift | src/generate.rs:261-271 | The CRC weight of a six at position p is its weight at position p + 4 advanced by three zero bytes. This is the recurrence that fills rows 13 down to 0. |
| CrcTables.TailWeight | src/generate.rs:246-274 | Entry j of row i of `crc16_table_tail` is the CRC weight of six j at position i + 2. |
| CrcTables.HeadWeight | src/generate.rs:200-216 | Entry j of `crc8_table_head` is the low byte of the CRC weight of six 1 when that six is j << 2, i.e. its top four bits, the part of six 1 outside byte 0. |
| CrcTables.PrefixCrcHead | src/generate.rs:89 | `crc_ini` is the low CRC byte of the first two sixes. |
| CrcTables.PrefixCrcTail | src/generate.rs:127 | Each tail step XORs `crc8_table_tail[i][six]` into the low CRC byte. |
| CrcTables.GroupTables | src/generate.rs:298-316 | Rows 14 to 17 of `crc16_table_tail`, taken at the four sixes of a 3-byte group, XOR to the CRC of those three bytes. |
| GenerateSpec.DpTrace.J | src/generate.rs:67-69 | `j()` masks bits 8-13, so the cum it reads is below 64. |
| GenerateSpec.DpTrace.L | src/generate.rs:75-77 | `l()` is the top two bits, below 4, and below 2 for a trace with bit 15 clear. |
| GenerateSpec.TraceOfFields | src/generate.rs:56-78 | Every trace with bit 15 clear is `DpTrace::new` of its own `j()`, `k()` and `l()`. |
| GenerateSpec.NewTrace | src/generate.rs:59-77 | `DpTrace::new(j, k, l)` round-trips through `j()`, `k()` and `l()` for j < 64 and l < 2. |
| GenerateSpec.CumRange | src/generate.rs:195-197 | A wildcard ranges over all 64 cums; a fixed cum ranges over itself alone. |
| GenerateSpec.PatternCumsOf | src/generate.rs:29-32 | The cums of a normalized pattern are below 64, and they are absent exactly at the '?' positions. |
| GenerateSpec.LNext | src/generate.rs:128 | The next `l` is 1 exactly when the top two bits of the six are 0b11. |
| GenerateSpec.ChainIff | src/generate.rs:98-135 | A DP path from position i holds exactly when every step from i on is in its cum range and unpruned, and the CRC of all 20 sixes matches the expected byte. |
| GenerateSpec.ChainBack | src/generate.rs:163-166 | Following a stored trace back one position extends the path by the six between the two cums. |
| GenerateSpec.Allowed | src/generate.rs:106-124 | Only tail positions 2, 3, 6, 7, 11, 12, 13 and 17 prune anything, and the six 0 is never pruned. |
| GenerateSpec.AllowedIff | src/generate.rs:106-124 | The pruning tests at all 18 tail positions pass exactly when the packed sixes give valid herb, key and tool nibbles. |
| GenerateSpec.PruningExact | src/generate.rs:106-124 | The pruning tests pass exactly when the state of the packed bytes has herb ≤ 6, key ≤ 6 and every tool ≤ 14. |
| GenerateSpec.DecodeSixes | src/generate.rs:146 | The password of 20 sixes decodes exactly when the sixes pass pruning and their CRC equals byte 0 (six 0 \| six 1 << 6). It then decodes to the bytes' state. |
| GenerateSpec.DecodeBytes | src/decode.rs:16-28 | The password of 15 bytes decodes exactly when the CRC matches and herb, key and tools are valid. It then decodes to `bytes_to_state`. |
| GenerateSpec.HeadSixes | src/generate.rs:44-47 | The head sixes (cum0 − 4) mod 64 and (cum1 − cum0 − 4) mod 64 give back cum0 and cum1. `cum_ini` is therefore cum1. |
| GenerateSpec.AllFoundIff | src/generate.rs:159 | A list of byte arrays is all found exactly when each member is. |
| GenerateSpec.FoundDecodes | src/generate.rs:20-26 | Every byte array reached by the search has a decodable password. |
| GenerateSpec.CharMatches | src/generate.rs:103 | A cum taken from a fixed pattern position spells the pattern's character there. |
| GenerateSpec.FoundMatches | src/generate.rs:39-48 | A byte array found under head cums from the pattern has a decodable password that matches the pattern at every position other than '?'. |
| Generate.Crc16TableTail | src/generate.rs:246-274 | Every entry of the built 18 × 64 table equals `Tail16(i, j)`, the source's formula. |
| Generate.Crc8TableTail | src/generate.rs:219-235 | Every entry is the low byte of the corresponding 16-bit entry. |
| Generate.Crc8TableHead | src/generate.rs:200-216 | Every entry j < 16 equals `Head8(j)`. |
| Generate.SixsToBytes | src/generate.rs:276-286 | The loop packs 20 sixes into exactly `BytesOf(sixs)`. |
| Generate.StepTo | src/generate.rs:103-128 | Accepts a step exactly when it is not pruned; it then returns the table-updated CRC and the next `l`. |
| Generate.Push | src/generate.rs:130-133 | A cell grows by the trace only while it holds fewer than `n_max`. The trace must point to a non-empty cell of the level below. The DP invariant is kept, and every other cell of the table is unchanged. |
| Generate.NewDp | src/generate.rs:94-95 | The fresh table satisfies the DP invariant for the head's `cum_ini` and `crc_ini`: every cell holds at most `n_max` traces, every trace is a step of a DP path, the initial cell is the only non-empty cell of level 0, and every trace of level i + 1 points to a non-empty cell of level i (the `debug_assert!` of src/generate.rs:156). Following traces back from any non-empty cell therefore ends in the initial cell. |
| Generate.GenerateDp | src/generate.rs:83-138 | At most `n_max` byte arrays, each reached by a DP path from the head sixes. |
| Generate.Dfs.Search | src/generate.rs:155-172 | Requires its cell to be non-empty, as the `debug_assert!` at line 156 does. Keeps `Valid()`: at most `n_max` arrays, each reached by a DP path from the head sixes. Only appends to `bytess`. Returns true exactly when `n_max` arrays have been found. Leaves the head sixes and the sixes above position i unchanged. |
| Generate.GenerateDpRestore | src/generate.rs:140-193 | At most `n_max` byte arrays, each reached by a DP path from the head sixes. |
| Generate.GenerateHead | src/generate.rs:44-48 | At most the remaining number of arrays, each decodable and matching the pattern. |
| Generate.Passwords | src/generate.rs:53 | The passwords are exactly `bytes_to_password` of each array, in order. |
| Generate.Generate | src/generate.rs:27-54 | An invalid pattern returns normalization's error. Otherwise the result is at most `n_max` passwords (none when `n_max` is 0), each 20 characters long, decodable and matching the pattern. |
| Vectors.FoldRoundsIs | src/crc.rs:2-16 | The CRC fold equals eight conditional shifts per byte. |
| Vectors.NormalizeNameOfA | src/encode.rs:209 | "しどー" normalizes to "しと゛-". |
| Vectors.NormalizeEmptyName | src/normalize.rs:227 | "" normalizes to four spaces. |
| Vectors.NormalizeVoicedName | src/normalize.rs:230 | "がぱ" normalizes to "か゛は゜". |
| Vectors.RejectLongName | src/normalize.rs:233 | Five spaces are rejected. |
| Vectors.RejectLongExpansion | src/normalize.rs:234 | "あああが" is rejected: it expands to 5 characters. |
| Vectors.RejectLatinName | src/normalize.rs:235 | "A" is rejected. |
| Vectors.NormalizeLongVowelState | src/game_state.rs:165-175 | The default state named "がー　" normalizes to the default state named "か゛- ". |
| Vectors.RejectLatinState | src/game_state.rs:177-182 | The default state named "A" does not normalize. |
| Vectors.PasswordOfGroups | src/encode.rs:154-164 | The password equals the group-by-group evaluation used for the literal cases. |
| Vectors.StateBytesOfA | src/encode.rs:207-224 | State A normalizes to the name "しと゛-" and has the bytes 173, 210, 124, 67, 46, 87, 135, 254, 182, 22, 102, 101, 4, 187, 33. |
| Vectors.EncodeA | src/encode.rs:207-226 | State A encodes to "ざぼちずどぢぎきつたうずせれえむるのぢえ". |
| Vectors.DecodeA | src/decode.rs:197-217 | That password decodes to state A with the name "しと゛-". |
| Vectors.StateBytesOfDefault | src/encode.rs:202-205 | The default state has the bytes 13, 0, 63, 0, 0, 252, 0, 63, 0, 0, 0, 0, 0, 126, 0. |
| Vectors.EncodeDefault | src/encode.rs:202-205 | The default state encodes to "つにこへむゆるわげげだどべうきさそさには". |
| Vectors.DecodeDefault | src/decode.rs:192-195 | That password decodes to the normalized default state. |
| Vectors.DecodeRejectsTool | src/decode.rs:19-25 | Bytes that pass the CRC but have an invalid tool decode to InvalidGameState. |
| Vectors.DecodeToolFifteen | src/decode.rs:219-223 | "どくのばうぼぞそこけばがきもびはめつごび", state A with tool 7 set to 15, decodes to InvalidGameState. |
| Vectors.ReplaceLast | src/decode.rs:225-229 | A text equal to a decodable password except for a different last password character gives CrcMismatch. |
| Vectors.DecodeLastCharChanged | src/decode.rs:225-229 | "ざぼちずどぢぎきつたうずせれえむるのぢお", password A with its last character changed, gives CrcMismatch. |

## Left out

- The three command-line example programs (encode, decode, generate) are not modelled: argument parsing, file reading, JSON and printing.
- The serde derives on `GameState` are not modelled: they are JSON views only.
- `src/lib.rs` is not modelled: it holds only module declarations.
- The message text that `validate_*` and `normalize_*` attach to errors is not modelled. Only the error kind is kept, plus both fields of `CrcMismatch`.
- `char::is_whitespace` is modelled as a fixed list of the Unicode White_Space code points. The Unicode library itself is not modelled.
- The `phf` maps are modelled as `match` tables. The `itertools` adapters are modelled as sequence functions and loops in the same order.
- The concrete numbers of the three CRC tables are not computed. Each entry is proved equal to the source's formula, and the formulas are tied to the CRC by linearity. The source's own table test (src/generate.rs:298-316) is stated for all inputs as `CrcTables.GroupTables`.
- Memory sizing (`Vec::with_capacity`, the `ndvec!` macro) is not modelled. `debug_assert!`s become `requires` clauses: the ones of `DpTrace::new` on `NewTrace`, the non-empty cell of src/generate.rs:156 on `Dfs.Search`, and `n_max != 0` on `generate_dp`.
- Generate.Generate: does not prove that the generator finds every matching password. It also does not prove that the result is free of duplicates. Only soundness (decodable and matching) and the bound of `n_max` are proved.
- Generate.Dfs.Search: each loop body of the DFS and of the DP fill is a helper method (`Follow`, `PutSix`, `Descend`, `Start`, `SearchAll`, `Spread`, `SpreadTo`, `AppendTrace`). That is a structural split only: the order of iteration is the source's.
- Encoder.StateToBytes: the function `StateBytes` states the layout. The claim that no two in-range fields share a bit is covered only through the round trip `Decoder.BytesToStateBytes`; no separate disjointness lemma is proved.
- The literal cases of the `normalize_password` and `normalize_pattern` tests (src/normalize.rs:240-268) are covered by the general lemmas only: `NormalizePassword`'s iff contract, `NormalizedPasswordFixed` and `NormalizedPatternFixed`. They are not stated on the literals.
- The name cases "0123", "ああああ" and "　あーす" (src/normalize.rs:228-231) and "漢字" (src/normalize.rs:236) are covered by the general lemmas only. They are not stated on the literals.
- The per-field `validate` failures of src/game_state.rs:141-154 and the literal checks of src/validate.rs:141-217 follow directly from the iff contracts. They are not restated one by one.

Where the code and its documentation disagree, the model follows the code:
- `GameState::normalize` does not range-check the numbers, although its documentation says the result is valid (src/game_state.rs:119-128). `GameStates.GameState.Normalize` states this.
- An invalid character in a pattern gives `InvalidPassword`, not the documented `InvalidPattern` (src/normalize.rs:190-191). `Normalize.NormalizePattern` states this.
- `generate` with `n_max == 0` returns an empty `Ok` list (src/generate.rs:38-41).
