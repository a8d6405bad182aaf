# ingrs Argon2 front-end and Base64 codec, in Dafny

This project models two parts of the ingrs browser library.

- **`B64`** (`src/ts/b64.ts`) is the Base64 codec.
  - `decode` finds the logical end of the text at the first `=`.
  - For each character at a position `i` with `i % 4 != 0`, it combines that character's 6-bit value with the previous character's value.
  - It ORs the resulting bytes, big-endian, into an array of 32-bit words.
  - `__warray2bytes` and `__w2bytes` unpack the words again.
  - `encode` is the padded Base64 of section 4 of RFC 4648.
  - `encodeStr` applies `encode` to the UTF-8 bytes of a string.
- **`Argon2`** (`src/ts/argon2.ts`) is the object that loads the Argon2 WebAssembly module and hashes passwords through it.
  - It has a `__ready` flag that only the runtime's `onRuntimeInitialized` callback sets.
  - `computeHash` answers `"not ready"` until then.
  - `__computeHash` copies the password, the decoded salt and two output buffers into the module's heap, then calls `_argon2_hash_ext`.

Files:

- `TextEncoding.dfy`: `TextEncoder.encode`, the UTF-8 encoding of a string.
- `B64.dfy`: the codec.
  - JavaScript's 32-bit integers are `bv32`, so `<<`, `>>>`, `|` and `&` are exact.
  - A character outside the alphabet has the value `indexOf` gives it, -1, which is all ones as a 32-bit word.
  - `Decode` is the source's loop over a sequence of words.
  - The decoded bytes are related to a specification `DecodeSpec` that reads each byte straight off its two characters.
  - `Encode` is written from RFC 4648, and `DecodeEncode` proves the round trip.
- `Argon2.dfy`: the `Argon2` class and the wasm module it drives.
  - The module is an `Engine` object. Its Argon2 functions (`_argon2_hash_ext`, `_argon2_encodedlen`, `_argon2_error_message`) are arbitrary functions fixed when the engine is created.
  - The engine keeps its live heap blocks and a log of the operations the front-end performs on it: `allocate`, `_free`, `_argon2_encodedlen`, `_argon2_hash_ext` and `_argon2_error_message`.
  - `_argon2_hash_ext` leaves engine-chosen bytes in the `hash` and `encoded` blocks. `UTF8ToString` reads a block's text through another engine function.
  - The front-end's contracts are therefore statements about that log and that heap.

What the code does at a few points its own comments or a reader might expect otherwise:

- `__computeHash` returns the encoded text on success (`src/ts/argon2.ts:269-277`) before its `_free` block (`src/ts/argon2.ts:287-292`). On that path the four buffers stay allocated (`Argon2Glue.ComputeHashWith`).
- `Argon2Params.hashLen` is commented "Hash length in byte" (`src/ts/argon2.ts:65-66`). The code passes 32 whatever it says (`src/ts/argon2.ts:204`).
- `__checkWasm` is commented "Checks the argon2 wasm ECDSA signature" (`src/ts/argon2.ts:132`). The check is commented out, and it accepts every binary (`src/ts/argon2.ts:154`).
- Failures are not reported as structured error values: `computeHash` answers the string `"not ready"` (`src/ts/argon2.ts:165`), and `__computeHash` answers `undefined` (`src/ts/argon2.ts:197`, `src/ts/argon2.ts:293`).

## Model

| member | source | states |
|---|---|---|
| TextEncoding.EncodeChar | src/ts/b64.ts:57 | one character's UTF-8 bytes: as many as its width, lead byte in the range for that width, continuation bytes in 0x80..0xBF, and an ASCII character is its own byte |
| TextEncoding.Utf8 | src/ts/argon2.ts:296-299 | `TextEncoder.encode` (also used by `encodeStr`): the byte length (`pwdlen`) is the sum of the characters' widths |
| TextEncoding.Utf8Append | src/ts/b64.ts:57 | encoding distributes over concatenation |
| TextEncoding.Utf8Ascii | src/ts/b64.ts:57 | an ASCII string encodes to its own code units, one byte each |
| B64.MapIsTable | src/ts/b64.ts:38-39 | the `__map` table holds the RFC 4648 symbols at their values, with `=` at index 64 |
| B64.IndexOf | src/ts/b64.ts:73 | `indexOf` answers -1 or a position inside the searched string |
| B64.IndexOfSpec | src/ts/b64.ts:73 | `indexOf` is -1 exactly when the character is absent, and otherwise the first position holding it |
| B64.IndexOfSymbol | src/ts/b64.ts:88-89 | `__map.indexOf` of the symbol at position `v` is `v` |
| B64.ValueOutside | src/ts/b64.ts:88-89 | `B64.Value`, the 32-bit value the shifts see, is all ones (`indexOf`'s -1) exactly for a character outside the table |
| B64.ValueOfSymbol | src/ts/b64.ts:88-89 | the symbol for a 6-bit value is not the pad, and its value is that number |
| B64.ValueBelow64 | src/ts/b64.ts:88-89 | every table character other than the pad has a value below 64 |
| B64.LogicalLength | src/ts/b64.ts:67-78 | the logical length is the position of the first `=`, or the whole length when there is none: no pad before it, a pad at it |
| B64.LogicalLengthIs | src/ts/b64.ts:67-78 | those three properties determine the logical length |
| B64.DataCountStep | src/ts/b64.ts:84-92 | each further character adds one byte exactly when its position is not a multiple of 4, so `4k` characters give `3k` bytes and a lone last character gives none |
| B64.CombineIsSourceShifts | src/ts/b64.ts:88-89 | `hi << 2k` OR-ed with `lo >>> (6 - 2k)` is the combination of two sextets at offset `k` |
| B64.ToPositionIsSourceShift | src/ts/b64.ts:90 | `x << (24 - 8p)` places `x` at byte `p` of the word, most significant first |
| B64.PlaceBits | src/ts/b64.ts:88-90 | the loop body's shifted, OR-ed value is the combination placed at byte `nBytes % 4` |
| B64.CombineOverlap | src/ts/b64.ts:88-90 | the unmasked high bits of `bits1` either vanish past bit 31 or equal the byte already stored before them, so OR-ing them in changes nothing |
| B64.BigEndianBytes | src/ts/b64.ts:136-143 | the four bytes `__w2bytes` extracts rebuild the word, most significant first |
| B64.OrInto | src/ts/b64.ts:90 | the OR into `buf[nBytes >>> 2]` adds a word exactly when `nBytes` reaches a new word, leaves every other word as it was, and sets the placed byte's bits in the target word |
| B64.UnpackPack | src/ts/b64.ts:90 | bytes OR-ed big-endian into words read back one by one |
| B64.WordToBytes | src/ts/b64.ts:131-147 | `__w2bytes(word, n)` gives `min(n, 4)` bytes (none for `n <= 0`), the big-endian bytes of `word` |
| B64.WordsToBytes | src/ts/b64.ts:107-122 | `__warray2bytes(w, n)` gives `n` bytes, the big-endian bytes of `w[0], w[1], …`, with the last word truncated |
| B64.Words | src/ts/b64.ts:81-93 | after `n` characters the word array holds `ceil(DataCount(n) / 4)` words |
| B64.WordsArePacked | src/ts/b64.ts:84-93 | for well-formed text the word array is at every step the big-endian packing of the bytes decoded so far |
| B64.DecodedByteAt | src/ts/b64.ts:84-95 | decoded byte `j` is the combination of the characters at its source position and the one before |
| B64.DecodePrefixAgree | src/ts/b64.ts:84-93 | the bytes decoded from a prefix depend only on that prefix |
| B64.DecodeResult | src/ts/b64.ts:95-97 | unpacking the final word array gives exactly the specified bytes |
| B64.Decode | src/ts/b64.ts:64-98 | `decode` returns `DataCount(logical length)` bytes, each read off the word array it builds, and for well-formed text exactly `DecodeSpec` |
| B64.Sextets | src/ts/b64.ts:44-49 | the sextets of a buffer: `ceil(4n/3)` of them, each below 64 |
| B64.SymbolCountBounds | src/ts/b64.ts:44-49 | the padded length exceeds the symbol count by at most two, and the symbols decode to exactly `n` bytes |
| B64.SpellShape | src/ts/b64.ts:44-49 | spelled text consists of table characters, pads exactly after the symbols, and each symbol's value is its sextet |
| B64.SymbolOfSextet | src/ts/b64.ts:44-49 | a sextet's symbol is a non-pad table character whose value is the sextet |
| B64.Encode | src/ts/b64.ts:44-49 | the padded encoding has four characters for every started group of three bytes |
| B64.EncodeStr | src/ts/b64.ts:54-59 | the encoding of a string's UTF-8 bytes has four characters for every started group of three bytes, counted from the characters' widths |
| B64.EncodeShape | src/ts/b64.ts:44-49 | an encoding's length is a multiple of 4, all its characters are in the table, and its pads are exactly the positions past the symbols |
| B64.EncodedByte | src/ts/b64.ts:44-49 | the decoder's combination at the source position of byte `j` of an encoding gives back byte `j` |
| B64.DecodeEncode | src/ts/b64.ts:44-98 | `decode(encode(x)) == x` for every byte sequence, and the encoding is well formed with its logical end at the first pad |
| B64.DecodeEncodeStr | src/ts/b64.ts:54-98 | decoding `encodeStr(s)` gives the UTF-8 bytes of `s` |
| B64.PaddingIgnored | src/ts/b64.ts:69-78 | a pad and anything after it change neither the logical length nor the decoded bytes |
| B64.PaddingExample | src/ts/b64.ts:69-78 | `"Zg"` and `"Zg=="` both decode to the single byte 0x66 |
| B64.EncodeExample | src/ts/b64.ts:44-49 | `encode` of the byte 0x66 is `"Zg=="` |
| B64.EncodeVectors | src/ts/b64.ts:44-49 | the RFC 4648 vectors: `""`, `"fo"` to `"Zm8="`, `"foo"` to `"Zm9v"` |
| Argon2Glue.Argon2.constructor | src/ts/argon2.ts:91-94 | a new object is not ready and has no module |
| Argon2Glue.Argon2.OnRuntimeInitialized | src/ts/argon2.ts:118-125 | the callback sets `__ready` and nothing else; it can only run once `instanciate` has handed a binary to the runtime |
| Argon2Glue.FetchWasm | src/ts/argon2.ts:175-185 | the fetched buffer is null exactly when the response is not ok, and otherwise the response body |
| Argon2Glue.CheckWasm | src/ts/argon2.ts:134-155 | the signature check accepts every binary |
| Argon2Glue.Argon2.Instanciate | src/ts/argon2.ts:99-129 | `instanciate` succeeds exactly when the response is ok; on failure the module is unchanged; on success the module is the instantiated engine; `__ready` is never changed, and the signature-failure branch is unreachable |
| Argon2Glue.Argon2.ComputeHash | src/ts/argon2.ts:161-169 | while not ready the answer is `"not ready"` and the engine's heap and call log are untouched; once ready, the answer, the heap (four fresh, distinct block addresses) and the call log are those of `__computeHash` on the stored module (`Rejected` when none is stored yet); `__ready` is never reset |
| Argon2Glue.LengthArgs | src/ts/argon2.ts:222-229 | `_argon2_encodedlen` is asked about hash length 32 and the decoded salt length |
| Argon2Glue.Marshal | src/ts/argon2.ts:237-264 | `_argon2_hash_ext` receives hash length 32, version 0x13, secret and associated data 0 with length 0, and the caller's costs, lengths and type |
| Argon2Glue.Zeros | src/ts/argon2.ts:216-220 | `new Array(n)` copied into the heap is `n` zero bytes |
| Argon2Glue.Engine.Allocate | src/ts/argon2.ts:207 | `allocate` returns a fresh block holding the content, and logs it |
| Argon2Glue.Engine.Release | src/ts/argon2.ts:288-291 | `_free` removes the block, and logs it |
| Argon2Glue.Engine.EncodedLength | src/ts/argon2.ts:222-229 | `_argon2_encodedlen` answers the engine's length and leaves the heap alone |
| Argon2Glue.Engine.HashExtended | src/ts/argon2.ts:245-267 | `_argon2_hash_ext` writes the engine's digest into the `hash` block and its output into the `encoded` block, changes no other block, logs the call, and returns or throws as the engine does |
| Argon2Glue.Engine.ReadString | src/ts/argon2.ts:275 | `UTF8ToString(encoded)` is the engine's reading of the bytes the block holds now |
| Argon2Glue.Engine.ErrorMessageOf | src/ts/argon2.ts:282 | `UTF8ToString(_argon2_error_message(res))` gives the engine's message, leaves the heap alone and is logged |
| Argon2Glue.AllocateBuffers | src/ts/argon2.ts:206-235 | four fresh, distinct blocks: the UTF-8 password, the decoded salt (its length `DataCount` of the salt's logical length, its bytes `DecodeSpec` when well formed), 32 zero bytes, and `encodedlen + 1` zero bytes, where `encodedlen` is the engine's answer |
| Argon2Glue.FreeAll | src/ts/argon2.ts:287-292 | freeing the four fresh blocks restores the heap exactly |
| Argon2Glue.ComputeHashWith | src/ts/argon2.ts:191-293 | with no `_argon2_hash_ext`, undefined before any allocation; otherwise the logged operations are the four allocations around the length query and then one hash call with the marshalled arguments; on status 0 the answer is the text read from the `encoded` block, and the four buffers stay allocated holding the password, the salt and the engine's digest and output, which replace the zero-filled contents (`Overwrite`); on any other status or an exception the error message is looked up when there is no exception value (`res` is `undefined` for a thrown false value), then the four are freed in order, the heap is as before, and the answer is undefined |

## Left out

- The network: `fetch` and `arrayBuffer` become a `Response` value given to `Instanciate`.
- The wasm runtime: `Module(moduleArgs)` becomes an `Engine` given to `Instanciate`.
- Asynchrony: `async`/`await` and the moment the runtime calls `onRuntimeInitialized` are not modelled. The callback is a method that may run any time after `Instanciate` has started the runtime.
  - `ComputeHash` answers `Rejected` when `__ready` is set but the module has not been stored yet, because `await this.module` then gives `undefined` and reading `_argon2_hash_ext` from it throws.
- The Argon2 computation, `HEAP8` and `UTF8ToString` are foreign. The engine's answers, and the bytes `_argon2_hash_ext` writes, are arbitrary functions of the call.
- Argon2Glue.Engine.HashExtended: the engine may write only into the `hash` and `encoded` blocks it is given, and both must be allocated. Writes outside them are not modelled.
- A thrown value is a string; `Threw("")` stands for every thrown value JavaScript treats as false.
- The commented-out ECDSA verification in `__checkWasm`, lines 137-150, has no behaviour.
- The `hashArr` loop, lines 270-273: its result is never used.
- `console.error` output is not modelled. The error message `__computeHash` looks up is computed but only logged.
- `btoa` and `String.fromCharCode.apply`: `Encode` is specified by RFC 4648 instead. This leaves out `btoa`'s exception on code units above 0xFF (there are none here) and the argument-count limit on long buffers.
- B64.Decode: for text with characters outside the alphabet before the first `=`, it states only the length and that each byte is read off the word array the loop builds. What `decode` returns there is garbage.
- B64.LogicalLength and B64.Decode count positions in Unicode scalar values. The source's `length`, `charAt` and `indexOf` count UTF-16 code units. For text with a character above U+FFFF before the first `=`, the model's length, positions and output differ from the source. For example, one such character is one position here and decodes to no bytes, but it is two code units there and decodes to one byte. Text made of Base64 characters is not affected.
- TextEncoding.Utf8: Dafny strings hold Unicode scalar values. JavaScript strings are UTF-16 and may hold lone surrogates, which `TextEncoder` replaces with U+FFFD. The model does not see that case.
- Argon2Glue.Engine.Allocate: addresses come from a counter that only grows, so the model never reuses a freed address and hands out addresses in increasing order. `_malloc` promises neither; the front-end's contracts rely only on each new address being outside the heap, which makes the four buffers pairwise distinct.
- Argon2Glue.Engine.Release: freeing an address that was never allocated is not modelled, because `__computeHash` only frees blocks it allocated itself.
