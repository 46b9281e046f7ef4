# r85 — a verified model of the keyed base-85 codec

r85 turns bytes into printable ASCII and back. Each group of four bytes is
read as a little-endian 32-bit number and written as five base-85 digits,
least significant first. A trailing group of r bytes (r = 1..3) becomes
r + 1 symbols. Decoding reverses this: five symbols give four bytes, and a
trailing group of r symbols gives r − 1 bytes.

The symbols come from an alphabet:
- Without a key, the alphabet is the 94 printable bytes `!` (0x21) through
  `~` (0x7E) in order. Only the first 85 of them are used for output.
- With a key, the first 85 UTF-16 code units of the key, each cut to its low
  byte, form a phrase. Step i of 85 takes the entry at
  `phrase[i mod |phrase|] mod (94 − i)` of a shrinking ordered pool as
  alphabet entry i. It then closes the gap with `copyWithin`.
- The reverse lookup starts as "byte ↦ pool index" for all 94 printable
  bytes. The keyed steps overwrite the 85 chosen bytes with their alphabet
  index.

The project is organised in four modules:
- `Digits` (digits.dfy): powers and the little-endian value of a digit
  sequence, with the facts needed to take a value apart into digits and put
  it back together.
- `Base85` (base85.dfy): the transform as functions on sequences.
  - `EncodeGroup`/`Encode` and `DecodeGroup`/`Decode`.
  - The JavaScript number semantics decode relies on: an accumulator that
    becomes NaN, and ToUint32 under `>>`.
  - The round trip, the length formulas and the prefix property.
- `Alphabet` (alphabet.dfy): the alphabet and reverse-lookup derivation as
  functions (`Pool`, `Phrase`, `Pick`, `Chars`, `RevLook`), and what holds
  of them for every key.
- `Codec` (codec.dfy): the class `R85`, with fields `chars` (an array) and
  `revLook` (a map).
  - The constructor runs the source's fill loops, the keyed draw and
    `copyWithin` in place on arrays.
  - `Encode` and `Decode` run the source's group loops over a preallocated
    output array.
  - Each is proved to compute exactly the functions of `Base85` and
    `Alphabet`.

Decode (index.js:30-48) validates nothing:
- A byte without a reverse-lookup entry reads as `undefined`. This makes the
  group's sum NaN, and `NaN >> s & 0xFF` is 0. A group of len symbols
  therefore still yields len − 1 bytes, each 0x00, and no error is raised
  (`Base85.DecodeUnknownGroup`).
- A trailing lone symbol is consumed without output
  (`Base85.DecodeDropsLoneSymbol`).
- With a key, a printable byte outside the alphabet still has its stale
  pool index (up to 93). It is decoded with that digit.

## Model

| member | source | states |
|---|---|---|
| `Codec.R85.constructor` | index.js:4-29 | the new object's `chars` and `revLook` are exactly `Chars(key)` and `RevLook(key)`, and `Valid()` holds: distinct printable symbols, `revLook` inverts the 85 alphabet slots and is defined on exactly the printable bytes |
| `Codec.BuildTables` | index.js:5-27 | the constructor's work yields a fresh array holding `Chars(key)` and the map `RevLook(key)`, with and without a key |
| `Codec.FillPool` | index.js:10-13 | the pool loop leaves `pool[i] = 0x21 + i` for all 94 entries and maps each printable byte to its pool index (`Pool()`, `Initial()`) |
| `Codec.FillPhrase` | index.js:16-19 | the phrase has `min(|key|, 85)` entries, and entry i is code unit i of the key modulo 256 (Uint8Array truncation) |
| `Codec.DrawAlphabet` | index.js:20-26 | the 85 keyed steps on the pool array give an alphabet equal to `Pick(Pool(), phrase, 0)`, with the reverse lookup equal to the initial map overwritten by `s[i] ↦ i` for each chosen symbol |
| `Codec.DrawSteps` | index.js:21-26 | the keyed `for` loop over i = 0..84, with the draw invariant as its loop invariant, fills the alphabet array with exactly the target alphabet and leaves the reverse lookup equal to the initial map overwritten by each chosen index |
| `Codec.DrawOne` | index.js:22-25 | one keyed step keeps the loop state: the live pool prefix is ascending and holds exactly the printable bytes not chosen yet, the chosen entries followed by the remaining steps give the alphabet, and the reverse lookup records every chosen index |
| `Codec.CopyWithin` | index.js:25 | `copyWithin(target, start, end)` with target ≤ start moves entries start..end−1 down to target and leaves every other entry as it was |
| `Codec.DrawInPlace` | index.js:23-25 | writing live entry k to alphabet slot i, recording i in the reverse lookup and closing the gap with copyWithin keeps the draw invariant for step i + 1 |
| `Alphabet.DrawStep` | index.js:22-24 | the functional keyed step preserves the draw invariant (live pool = printable bytes not chosen, ascending; chosen + remaining picks = alphabet; reverse lookup = overwrite of chosen) |
| `Alphabet.DrawStart` | index.js:10-13 | before the first keyed step the whole pool is live, nothing is chosen and the draw invariant holds |
| `Alphabet.PickFacts` | index.js:21-26 | the keyed steps draw without replacement: steps i..84 give 85 − i distinct symbols, all from the live pool |
| `Alphabet.RemoveFacts` | index.js:25 | removing entry k of an ascending pool keeps it ascending and removes exactly the symbol at k |
| `Alphabet.AlphabetValid` | index.js:10-26 | for every key the alphabet consists of distinct printable bytes: 85 with a key, and the 94 bytes `0x21 + i` without one |
| `Alphabet.RevLookFacts` | index.js:10-26 | for every key, `revLook[chars[i]] == i` for i < 85, `revLook` is defined on exactly the printable bytes, and unchosen printable bytes keep their pool index |
| `Alphabet.OverwriteFacts` | index.js:24 | writing `s[i] ↦ i` for distinct present symbols keeps the key set, maps each `s[i]` to i and leaves every other entry unchanged |
| `Alphabet.TablesValid` | index.js:4-29 | the cached tables satisfy what encode and decode rely on, for every key |
| `Alphabet.SamePhrase` | index.js:16-19 | only the first 85 code units of the key, modulo 256, matter: two keys that agree there give the same alphabet and reverse lookup |
| `Alphabet.PoolFacts` | index.js:10-13 | the pool is ascending, has 94 entries and holds exactly the printable bytes |
| `Base85.Pow85Table` | index.js:7 | the constant table `[0x1, 0x55, 0x1C39, 0x95EED, 0x31C84B1]` is 85^0..85^4 |
| `Codec.R85.Encode` | index.js:49-70 | the output array equals `Base85.Encode(chars, input)`: groups of four bytes become five symbols, and a tail of r bytes becomes r + 1 symbols |
| `Codec.R85.EncodeGroupAt` | index.js:57-67 | one pass of encode's loop writes the group's symbols at `output[j..]` and extends the encoding of the preceding whole groups by that group |
| `Codec.PackBytes` | index.js:58-64 | the 32-bit `v \|= b << 8k` loop followed by the `v < 0` fix gives the unsigned little-endian value of the group |
| `Codec.PackStep` | index.js:59-61 | one `\|=` step on int32 keeps the accumulator equal to ToInt32 of the value packed so far |
| `Codec.Unsigned32` | index.js:62-64 | adding 2^32 to a negative int32 recovers the unsigned 32-bit value |
| `Codec.ToInt32` | index.js:60 | the int32 semantics of `<<` and `\|=`: every result lies in [−2^31, 2^31); values below 2^31 are unchanged and values in [2^31, 2^32) lose 2^32 |
| `Codec.Int32Bits` | index.js:60 | ToInt32 keeps the low 32 bits of its argument |
| `Codec.R85.EmitSymbols` | index.js:65-67 | `output[j + k] = chars[v / 85^k % 85]` for k ≤ len, and nothing else changes |
| `Codec.R85.Decode` | index.js:30-48 | the output array equals `Base85.Decode(revLook, input)` for every input, including bytes without a lookup entry and a lone trailing byte |
| `Codec.DecodeGroupAt` | index.js:38-45 | one pass of decode's loop writes the group's bytes at `output[j..]` and extends the decoding of the preceding whole groups by that group |
| `Codec.PackSymbols` | index.js:39-42 | the sum `Σ revLook[s_k] · 85^k` over the group is its base-85 value, or NaN as soon as a byte has no entry |
| `Codec.EmitBytes` | index.js:43-45 | `output[j + k] = v >> 8k & 0xFF` for k < len − 1, and nothing else changes |
| `Codec.AsciiText` | index.js:75 | `toString('ascii')`: one character per byte, and each byte below 0x80 is kept as its character code |
| `Codec.R85.EncodeToString` | index.js:74-76 | the text has one character per encoded byte, and each character is that byte (the symbols are 7-bit, so Node's 'ascii' decoding keeps them) |
| `Base85.Add` | index.js:41 | `+=` on the accumulator: the sum is NaN exactly when an operand is NaN, and otherwise the exact sum |
| `Base85.GroupNum` | index.js:39-42 | the group's sum is NaN exactly when some symbol of the group has no reverse-lookup entry; the empty sum is 0 (`v = 0`) |
| `Base85.ShiftByte` | index.js:44 | `v >> (k << 3) & 0xFF`: NaN gives 0, and for k < 4 a finite v gives its byte k even when v ≥ 2^32, since the ToInt32 wrap of `>>` keeps the low 32 bits |
| `Base85.GroupNumNext` | index.js:41 | adding symbol k adds its weighted digit, or makes the sum NaN when the symbol has no entry |
| `Base85.DecodeKnownGroup` | index.js:44 | for a group of known symbols the shifted, masked bytes are the low bytes of the exact sum, even when the sum reaches 2^32 and `>>` wraps it |
| `Base85.DecodeUnknownGroup` | index.js:41-44 | a group containing a byte without a lookup entry has sum NaN and still yields len − 1 bytes, each 0x00 |
| `Base85.GroupBelow32` | index.js:58-61 | a group of at most four bytes packs into a value below 2^32 |
| `Base85.EncodeLength` | index.js:53-55 | the encoding of n bytes has 5·(n div 4) + (r == 0 ? 0 : r + 1) symbols, with r = n mod 4 |
| `Base85.DecodeLength` | index.js:34-36 | the decoding of n symbols has 4·(n div 5) + (r == 0 ? 0 : r − 1) bytes, with r = n mod 5 |
| `Base85.EncodeUsesAlphabet` | index.js:66 | every encoded symbol is one of the first 85 alphabet entries |
| `Base85.EncodeAppend` | index.js:56-68 | a prefix of whole four-byte groups is encoded independently of what follows: `Encode(x + y) == Encode(x) + Encode(y)` when 4 divides the length of x |
| `Base85.DecodeAppend` | index.js:37-46 | a prefix of whole five-symbol groups is decoded independently of what follows |
| `Base85.EncodeExtend` | index.js:56-68 | encoding k whole groups and then one more group is the encoding of the longer prefix |
| `Base85.DecodeExtend` | index.js:37-46 | decoding k whole groups and then one more group is the decoding of the longer prefix |
| `Base85.DecodeDropsLoneSymbol` | index.js:38-45 | a trailing group of exactly one byte, whatever it is, is consumed with no output and no error |
| `Base85.GroupValue` | index.js:59-66 | the packed value of a group survives being split into len + 1 base-85 digits and reassembled |
| `Base85.SymbolDigits` | index.js:66 | looking up the symbols emitted for v gives back v's base-85 digits |
| `Base85.GroupRoundTrip` | index.js:37-67 | decoding the symbols of one group of 1..4 bytes gives back the group |
| `Base85.RoundTrip` | index.js:30-70 | for any alphabet and a reverse lookup that inverts it, every encoded symbol has an entry and `Decode(rev, Encode(alpha, x)) == x` |
| `Codec.KeyedRoundTrip` | index.js:4-70 | for every key, decoding with that key's tables gives back what was encoded with them |
| `Codec.EuroEncodes` | index.test.js:38-40 | without a key, the UTF-8 bytes of "€" (E2 82 AC) encode to "3eC3" |
| `Codec.EuroDecodes` | index.test.js:41-43 | without a key, "3eC3" decodes to E2 82 AC |
| `Digits.ModKeepsDigit` | index.js:44 | reducing a value modulo b^n keeps each of its base-b digits below position n (why ToInt32 inside `>>` loses nothing for k ≤ 3) |
| `Digits.ValueDigit` | index.js:44 | dividing a little-endian value by b^k and reducing modulo b gives back digit k |
| `Digits.ValueOfDigits` | index.js:65-67 | reassembling the first n base-b digits of v gives v modulo b^n |

## Left out

- decodeToString (index.js:71-73): it turns decode's bytes into a string through Node's UTF-8 decoder, which is not part of this model.
- Input coercion in encode and decode (index.js:31, 50): a non-buffer input is first converted with `Buffer.from(input, 'utf8' / 'ascii')`. The model takes the byte sequence that conversion yields. UTF-8 encoding of strings is not modelled.
- The key's type: any falsy key (undefined, null, '') means no key, and the model represents all of these by the empty key. Non-string keys are not modelled.
- The WeakMap holding the private state (index.js:1, 28, 32, 51) becomes the two fields of the class.
- `Buffer.allocUnsafe`: the model allocates a zeroed array. Its initial contents are irrelevant because the contract of Encode and Decode fixes every entry of the output.
- Floating point:
  - In encode, `v / pow85[k] % 0x55 | 0` is computed in double precision. The model uses exact integer division. The two agree because v < 2^32 and the quotient is never rounded across an integer; this argument is not formalised.
  - Decode's sum is at most 93 · (85^5 − 1) / 84 < 2^53, so it is exact in a double, as the model assumes.
- Codec.PackBytes: `v |= b << 8k` is modelled as adding the low 32 bits of the two operands. The byte lands on bits that are still zero, because the value so far is below 256^k. The bitwise or itself is not expressed on bit-vectors.
- Fixtures not proved:
  - the keyed "€" fixture "XncX" (index.test.js:80-85);
  - the fixtures over all 258 or 256 byte values (index.test.js:14-53, 55-95, 97-142) and the 1 GB fixture (index.test.js:144-175).
  Proving them would mean evaluating the 85-step keyed draw or hundreds of groups inside the verifier. The round trip and the no-key "€" fixture are proved instead.
- The command-line wrapper (bin/index.js) and the test harness are not part of this model.
