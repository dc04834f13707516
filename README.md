# termformat in Dafny

A model of the codec in `termformat/__init__.py`, a Python encoder and decoder for the Erlang External Term Format. The model proves properties of the codec.

- `encode` turns a Python value into bytes: the version byte 131, then one tagged term.
  - Integers become SMALL_INTEGER_EXT, INTEGER_EXT, SMALL_BIG_EXT or LARGE_BIG_EXT.
  - Floats become the 31-byte ASCII FLOAT_EXT.
  - A byte string that starts with `:` becomes an ATOM_EXT. Any other byte string becomes a BINARY_EXT. Text is encoded through its UTF-8 bytes.
  - Tuples and sets become SMALL_TUPLE_EXT or LARGE_TUPLE_EXT.
  - A list becomes NIL_EXT when empty, and LIST_EXT otherwise. The LIST_EXT carries the element count and ends in a NIL byte.
- `decode` checks the version byte and decodes one term.
  - Each tag's parser returns its value together with the unconsumed tail.
  - Tuple and list parsers thread that tail through `decode_iterable`.
- Atoms are host strings behind the `:` sigil. `is_atom`, `binary_to_atom` and `atom_to_binary` add, test and strip that sigil.

## Files

- `wire.dfy`, module `Wire`:
  - the tag bytes
  - the big-endian `struct` fields `>H`, `>I` and `>i`
  - Python's clamping slices
  - little-endian bignum magnitudes
- `terms.dfy`, module `Terms`:
  - the host values (`Value`) and the raised errors (`Error`)
  - `Result` and `FloatCodec`
  - the atom helpers
- `encoder.dfy`, module `Encoder`:
  - `Encoded` specifies `encode_term`.
  - The methods `EncodeTerm`, `EncodeInt` (with its shift loop `EncodeMagnitude`), `EncodeTuple`, `EncodeList` and `AppendElements` (the `for item in term` loop) follow the source's steps. They are proved to compute `Encoded`.
- `decoder.dfy`, module `Decoder`:
  - `Decoded`, `DecodedElements` and `DecodedIterable` specify `decode_term` and `decode_iterable`.
  - `DecodeTerm`, `DecodeBignum` (with its fold loop `FoldMagnitude`) and `DecodeIterable` are proved to compute them. `DecodeIterable` preallocates an array and fills it by index.
  - The lemmas here describe each tag's parser: when it succeeds, what it returns and which error it raises.
- `roundtrip.dfy`, module `RoundTrip`:
  - the round trip, under conditions that are sufficient for it
  - lemmas that exhibit the places where the decoder does not invert the encoder
  - the byte layouts the repository's tests expect

Notes on the model:

- **Decoded values.** Decoding never gives back bytes or a set. A binary and an atom come back as text, and a set comes back as a tuple. `RoundTrip.Norm` is the value the decoder returns for an encoded value.
- **Where the round trip holds.** It holds under `Decodable` and `Fits`.
  - `Decodable`: bignum magnitudes of at most 255 bytes, atom names of 1 to 255 bytes, and binaries whose length plus five passes the decoder's 32-bit check. A float must be one whose text the float codec reads back.
  - `Fits`: no element takes a NIL byte that belongs to what comes after it. A tuple or set takes a NIL byte that follows it, because `decode_iterable` skips one after the elements of any container; so does a non-empty list whose last element takes one. Such a value may stand last in a list, where it takes the list's own NIL, and the list then takes none. Elsewhere it must not be followed by an empty list or, at the end of its container, by a NIL byte. `RoundTrip.After` is what decoding leaves of the bytes after an encoding.
- **Behaviour of the code worth knowing.** The model follows the code in these places, where it differs from the External Term Format or from what its structure suggests:
  - floats are always encoded as the 31-byte ASCII FLOAT_EXT; NEW_FLOAT_EXT is only decoded;
  - the COMPRESSED tag is declared and never handled, so the decoder rejects it as an unknown term type;
  - `decode` returns only the value, and drops any bytes after the first term;
  - `decode_iterable` skips one NIL byte after the elements if there is one, after tuples as well as after lists (lines 249-250); in the format only LIST_EXT has a tail after its elements, which for a proper list is NIL_EXT;
  - any non-zero sign byte negates a bignum, where the format uses 0 and 1;
  - the STRING_EXT tail is taken from `term[length:]` and not from after the body;
  - the LARGE_BIG_EXT magnitude is read from `term[4:]`, the last byte of the length field, and not from after the sign byte;
  - a bignum's declared length is not checked against the bytes that remain.

## Model

| member | source | states |
|---|---|---|
| Wire.Slice | termformat/__init__.py:192-193 | a Python slice is clamped to the length: its length and its elements in terms of the original |
| Wire.Drop | termformat/__init__.py:177 | `s[k:]` is a suffix of `s`, empty once `k` passes the end |
| Wire.Pack2 | termformat/__init__.py:43 | `>H` packing gives two bytes that unpack to the packed number |
| Wire.Unpack2 | termformat/__init__.py:49 | `>H` unpacking gives a number of at most 65535 |
| Wire.Pack4 | termformat/__init__.py:42 | `>I` packing gives four bytes that unpack to the packed number |
| Wire.Unpack4 | termformat/__init__.py:48 | `>I` unpacking gives a number of at most 2^32-1 |
| Wire.PackSigned4 | termformat/__init__.py:44 | `>i` packing gives four bytes that unpack to the packed signed number |
| Wire.UnpackSigned4 | termformat/__init__.py:50 | `>i` unpacking lies in the signed 32-bit range and is negative exactly when the top bit is set |
| Wire.PackUnpack | termformat/__init__.py:35-50 | packing what was unpacked gives the same 2 or 4 bytes back (unsigned and signed) |
| Wire.LittleEndian | termformat/__init__.py:79-83 | the shift loop's output is empty exactly for a zero magnitude |
| Wire.LittleEndianNoTrailingZero | termformat/__init__.py:80-84 | the recorded bignum magnitude never ends in a zero byte |
| Wire.FromLittleEndian | termformat/__init__.py:169-174 | the folded magnitude of `k` bytes is below 256^k |
| Wire.LittleEndianInverse | termformat/__init__.py:169-174 | folding the bytes the encoder wrote gives the magnitude back |
| Wire.FromLittleEndianInverse | termformat/__init__.py:79-83 | writing a folded magnitude without a trailing zero byte gives the same bytes back |
| Wire.ByteLengthBound | termformat/__init__.py:84-89 | a magnitude needs at most `k` bytes exactly when it is below 256^k |
| Terms.IsAtom | termformat/__init__.py:54-56 | only a text or byte string is an atom, and a string is one exactly when its first byte is the colon |
| Terms.BinaryToAtom | termformat/__init__.py:58-62 | succeeds exactly on a string that is not yet an atom, and gives an atom of the same kind whose bytes are the colon followed by the string's; otherwise the invalid-value error |
| Terms.AtomToBinary | termformat/__init__.py:64-68 | succeeds exactly on an atom, and gives a string of the same kind whose bytes are the atom's without the leading colon; otherwise the invalid-value error |
| Terms.AtomOfBinaryRoundTrip | termformat/__init__.py:58-68 | stripping the sigil just added gives the string back |
| Terms.BinaryOfAtomRoundTrip | termformat/__init__.py:58-68 | adding the sigil back to a stripped atom (whose name has no leading colon) gives the atom back |
| Encoder.IntLayout | termformat/__init__.py:73-91 | an integer encodes unless its magnitude needs more than 2^32-1 bytes: one byte after SMALL_INTEGER_EXT for 0..255, four two's-complement bytes after INTEGER_EXT for the rest of the signed 32-bit range, a bignum otherwise |
| Encoder.BignumLayout | termformat/__init__.py:79-91 | a bignum is the small or large tag by magnitude length, the length field, the sign byte (1 for negative) and the little-endian magnitude, or the length error past 2^32-1 bytes |
| Encoder.FloatField | termformat/__init__.py:93-96 | the FLOAT_EXT field is the text followed by NUL bytes up to 31 bytes, never truncated |
| Encoder.ByteStringLayout | termformat/__init__.py:97-115 | a string with a leading colon encodes as ATOM_EXT exactly when its name has 1 to 255 bytes, and any other string as BINARY_EXT up to 2^32-1 bytes, with the matching length error otherwise |
| Encoder.Encoded | termformat/__init__.py:71-140 | every encoding is at least one byte long, and it starts with the NIL byte exactly when the value is the empty list |
| Encoder.EncodedElements | termformat/__init__.py:124-126 | the encoded elements take at least one byte each |
| Encoder.AppendStep | termformat/__init__.py:124-126 | one turn of the element loop: an element that encodes appends its bytes to those of the elements before it, and one that fails gives its error to the whole sequence |
| Encoder.ElementsFirstError | termformat/__init__.py:124-126 | the first element that fails to encode decides the error of the whole sequence |
| Encoder.Encode | termformat/__init__.py:143-145 | `encode` succeeds exactly when `encode_term` does, and gives the version byte 131 in front of its bytes, or its error |
| Encoder.EncodeMagnitude | termformat/__init__.py:79-83 | the shift loop writes the magnitude's little-endian bytes |
| Encoder.EncodeTerm | termformat/__init__.py:71-140 | the dispatch on the value's type computes `Encoded` |
| Encoder.EncodeInt | termformat/__init__.py:73-91 | the integer branch, with its shift loop, computes the integer encoding |
| Encoder.EncodeTuple | termformat/__init__.py:116-127 | the tuple and set branch computes the arity header followed by the elements |
| Encoder.EncodeList | termformat/__init__.py:128-138 | the list branch computes NIL alone for the empty list, else LIST_EXT, count, elements and NIL |
| Encoder.AppendElements | termformat/__init__.py:124-126 | the element loop appends every element's encoding in order, or stops with the first element's error |
| Decoder.BeforeNul | termformat/__init__.py:183 | `split(b"\x00")[0]` is the longest NUL-free prefix |
| Decoder.Decoded | termformat/__init__.py:148-241 | whatever tail a successful decode returns is a suffix of its input |
| Decoder.DecodedElements | termformat/__init__.py:245-248 | decoding `n` elements gives exactly `n` values and a suffix of the source |
| Decoder.DecodedIterable | termformat/__init__.py:244-251 | `decode_iterable` gives exactly `n` values and a suffix of the source |
| Decoder.ElementStep | termformat/__init__.py:246-248 | one turn of the element loop: a decoded element is appended, and a failing one ends `decode_iterable` with its error |
| Decoder.UnknownTagRejected | termformat/__init__.py:240-241 | no byte at all, or any tag the decoder does not know (COMPRESSED among them), is the invalid-term-type error |
| Decoder.SmallIntDecoding | termformat/__init__.py:150-155 | SMALL_INTEGER_EXT succeeds exactly when its byte is there, giving that byte and the tail after it |
| Decoder.IntDecoding | termformat/__init__.py:156-161 | INTEGER_EXT succeeds exactly with four bytes, giving their signed 32-bit value and the tail; otherwise the incomplete error with the count of bytes found |
| Decoder.FloatDecoding | termformat/__init__.py:178-184 | FLOAT_EXT fails when short of 31 bytes; otherwise it succeeds exactly when the text before the first NUL parses, and resumes after the 31-byte field |
| Decoder.NewFloatDecoding | termformat/__init__.py:185-190 | NEW_FLOAT_EXT succeeds exactly with eight bytes, giving them as the double |
| Decoder.AtomDecoding | termformat/__init__.py:230-237 | ATOM_EXT succeeds exactly when all declared name bytes are there, giving the name with the sigil (an atom) and the tail after the name; otherwise the incomplete-atom error |
| Decoder.BinaryDecoding | termformat/__init__.py:200-208 | BINARY_EXT succeeds exactly when length plus five passes the 32-bit check and all body bytes are there, giving the body as text; the two errors otherwise |
| Decoder.BignumDecoding | termformat/__init__.py:162-177 | a bignum decodes exactly when its header is there, with a magnitude below 256 to the declared length |
| Decoder.MissingElement | termformat/__init__.py:246-247 | when the bytes run out before the last element, `decode_iterable` raises the invalid-term-type error |
| Decoder.ElementsFirstError | termformat/__init__.py:246-247 | the first element that fails to decode decides the error of `decode_iterable` |
| Decoder.Decode | termformat/__init__.py:254-257 | a missing or wrong version byte is the version error; otherwise `decode` succeeds exactly when the term after it decodes, giving its value and dropping the tail |
| Decoder.FoldMagnitude | termformat/__init__.py:169-174 | the fold over `tail[length-1::-1]` computes the little-endian value of the (clamped) first `length` bytes |
| Decoder.DecodeBignum | termformat/__init__.py:162-177 | the bignum branch, with its fold loop, computes the bignum decoding |
| Decoder.DecodeTerm | termformat/__init__.py:148-241 | the tag dispatch computes `Decoded` |
| Decoder.DecodeIterable | termformat/__init__.py:244-251 | filling the preallocated array by index computes `decode_iterable` |
| RoundTrip.DecodedIsNormal | termformat/__init__.py:148-241 | a decoded value holds no bytes and no sets, at any depth |
| RoundTrip.IterableIsNormal | termformat/__init__.py:244-251 | the values `decode_iterable` gives hold no bytes and no sets |
| RoundTrip.ElementsAreNormal | termformat/__init__.py:245-248 | the values of the element loop hold no bytes and no sets |
| RoundTrip.EncodableIff | termformat/__init__.py:71-140 | `encode_term` succeeds exactly on the encodable values; an unsupported type always fails |
| RoundTrip.ElementsEncodableIff | termformat/__init__.py:124-126 | a sequence of elements encodes exactly when each element does |
| RoundTrip.BeforeNulOfPadded | termformat/__init__.py:183 | splitting a NUL-free text followed by NUL padding gives the text |
| RoundTrip.BeforeNulOfField | termformat/__init__.py:95 | splitting the padded FLOAT_EXT field gives the formatted text back |
| RoundTrip.IntRoundTrip | termformat/__init__.py:73-89 | an integer with a magnitude of at most 255 bytes decodes back, leaving exactly what followed |
| RoundTrip.FloatRoundTrip | termformat/__init__.py:92-96 | a float whose text fits and parses back decodes back, leaving what followed |
| RoundTrip.AtomRoundTrip | termformat/__init__.py:98-106 | an atom with 1 to 255 name bytes decodes back as text, leaving what followed |
| RoundTrip.BinaryRoundTrip | termformat/__init__.py:107-110 | a binary whose length plus five fits 32 bits decodes back as text, leaving what followed |
| RoundTrip.ByteStringRoundTrip | termformat/__init__.py:97-115 | a decodable byte string or text decodes back as its text |
| RoundTrip.ScalarDecodeEncode | termformat/__init__.py:73-115 | every decodable scalar decodes back to its normal form, leaving what followed |
| RoundTrip.TermRoundTrip | termformat/__init__.py:71-140 | every decodable value that fits decodes back to its normal form, leaving what followed, less the one NIL byte a tuple, set or list ending in one of them takes from it |
| RoundTrip.TupleRoundTrip | termformat/__init__.py:116-127 | a decodable tuple or set that fits decodes back as the tuple of its normalised elements, and takes a NIL byte that follows it |
| RoundTrip.TupleBytes | termformat/__init__.py:116-127 | a tuple encoding is the small or large header with the arity, then the element bytes |
| RoundTrip.ListRoundTrip | termformat/__init__.py:128-138 | a decodable list that fits decodes back, its closing NIL consumed, and one more NIL byte after it when its last element takes the closing one |
| RoundTrip.ListBytes | termformat/__init__.py:132-136 | a non-empty list encoding is LIST_EXT, the count, the element bytes, then NIL |
| RoundTrip.ElementsRoundTrip | termformat/__init__.py:124-126 | a sequence of encoded elements decodes element by element into the normalised elements, leaving what followed less the NIL byte the last element may take |
| RoundTrip.DecodeEncode | termformat/__init__.py:143-145 | `decode(encode(v))` is the normal form of every decodable value that fits the end of the buffer |
| RoundTrip.ListEndingInTupleRoundTrip | termformat/__init__.py:128-138 | `[(1,)]` comes back from `decode(encode(...))`: its tuple takes the list's NIL |
| RoundTrip.StringRestQuirk | termformat/__init__.py:199 | a STRING_EXT of length 1 decodes with the tail taken from `term[1:]`, not after the body |
| RoundTrip.StringDecoding | termformat/__init__.py:191-199 | STRING_EXT succeeds exactly when the body bytes are there, and its tail starts at `term[length:]` |
| RoundTrip.LargeBignumQuirk | termformat/__init__.py:167-168 | a LARGE_BIG_EXT with a one-byte magnitude leaves the sign and magnitude bytes behind |
| RoundTrip.LargeBignumLeavesTwoBytes | termformat/__init__.py:167-177 | every encoded large bignum decodes with its last two magnitude bytes left in front of what followed |
| RoundTrip.TruncatedBignumQuirk | termformat/__init__.py:171 | a bignum that declares 5 magnitude bytes but has 1 still decodes |
| RoundTrip.EmptyAtomQuirk | termformat/__init__.py:230-237 | an atom with an empty name decodes, while encoding it fails with the atom length error |
| RoundTrip.EmptyTupleTakesNil | termformat/__init__.py:249-250 | an empty tuple followed by a NIL byte consumes that byte |
| RoundTrip.NilAfterTupleQuirk | termformat/__init__.py:249-250 | the encoding of `((), [])` fails to decode, because the inner tuple swallows the list's NIL |
| RoundTrip.LongBinaryQuirk | termformat/__init__.py:201-204 | a binary of 2^32-5 to 2^32-1 bytes encodes but fails to decode with the binary length error |
| RoundTrip.EncodeIntExample | tests/test_encode.py:42-44 | 300 encodes as `131 98 0 0 1 44` |
| RoundTrip.EncodeBignumExample | tests/test_encode.py:46-48 | 4294967295 encodes as a SMALL_BIG_EXT of four 255 bytes |
| RoundTrip.EncodeNegativeBignumExample | tests/test_encode.py:54-56 | -4294967296 encodes as a SMALL_BIG_EXT with sign 1 and magnitude `0 0 0 0 1` |
| RoundTrip.EncodeListExample | tests/test_encode.py:66-68 | `[1, 2, 3]` encodes as LIST_EXT, count 3, three small integers and NIL |
| RoundTrip.EncodeEmptyListExample | tests/test_encode.py:70-72 | the empty list encodes as NIL alone |
| RoundTrip.DecodeNegativeBignumExample | tests/test_decode.py:39-41 | `131 110 5 1 0 0 0 0 1` decodes to -4294967296 |

## Left out

- Compression: the codec declares the COMPRESSED tag but neither compresses nor inflates. The decoder rejects the tag as an unknown term type, and `Decoder.UnknownTagRejected` covers that case.
- Float numerics:
  - Python's `"{0:.20e}".format` and `float()` are the `format` and `parse` fields of the `FloatCodec` parameter, and `>d` unpacking is not modelled. A float is known by its eight IEEE bytes.
  - `RoundTrip.FloatRoundTrip` assumes that the codec reads its own text back.
- UTF-8: a text value is its UTF-8 bytes. Invalid UTF-8 in a decoded binary, string or atom, whose `decode()` raises in the source, is not modelled as an error.
- Python 2 and 3 shims, `long`/`unicode`/`xrange`: there is one integer kind and one text kind. `bool` is an `Unsupported` value.
- Terms.IsAtom: on bytes under Python 3, `term.startswith(":")` raises TypeError, because the prefix is a text. The model treats bytes like text, with the sigil as the byte 58.
- Terms.BinaryToAtom: the TypeError of `is_atom` on bytes comes first, before the formatting, which would give the bytes' repr. The model gives the bytes with the sigil in front.
- Terms.AtomToBinary: on bytes, the TypeError of `is_atom` comes first. The model strips the byte 58.
- Set iteration order: a set is the sequence of its elements in iteration order. Nothing is claimed about which order the runtime chooses.
- The MemoryError of `[0] * length` for a huge declared count is not modelled. The model allocates the array and fails on the first missing element instead.
- Dead length checks: the source has checks that its unpacking makes unreachable, and they are omitted:
  - `length > 255` after a one-byte unpack
  - `length > 65535` after a two-byte unpack
  - `length > 4294967295` for tuple and list counts after a four-byte unpack
- Header errors: a length, arity or sign field cut short makes `struct` or `ord` raise. All of these are the single `TruncatedHeader` error.
- Decoder.BignumDecoding: does not state the sign of the result. The value itself is fixed by `Decoder.DecodeBignum` and `decode_term`'s bignum branch.
- RoundTrip.TermRoundTrip: `Decodable` and `Fits` are sufficient conditions, not necessary ones. The quirk rows above show particular values outside them that do not come back. The same holds for `RoundTrip.TupleRoundTrip`, `RoundTrip.ListRoundTrip`, `RoundTrip.ElementsRoundTrip` and `RoundTrip.DecodeEncode`.
- Deep nesting: for deeply nested input, CPython's recursion limit raises RecursionError in `encode_term` and `decode_term`. The model has no recursion limit.
