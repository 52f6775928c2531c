# django-sesame packers, modelled in Dafny

django-sesame puts a user's primary key into a signed login token. The module
`sesame/packers.py` turns that primary key into bytes and back. The token layer
appends its signature after the packed bytes. Unpacking must therefore read the
key from the front of a buffer and hand the rest back untouched.

This project models that module as pure functions over byte strings
(`seq<Byte>`, `Byte` being 0..255) and proves its properties:

- `IntPacker` (module `IntPacker`): `pack_pk` is `struct.pack("!i", pk)`. It gives
  four bytes, big-endian two's complement, and raises `struct.error` for keys
  outside [-2^31, 2^31). `unpack_pk` reads `data[:4]` the same way and returns
  `data[4:]`. It raises `struct.error` when fewer than four bytes are there.
- `UUIDPacker` (module `UUIDPacker`): a UUID is its 128-bit integer, as Python's
  `uuid.UUID` holds it. `pack_pk` is `.bytes`, the sixteen bytes most significant
  first (RFC 4122 section 4.1.2). `unpack_pk` is `uuid.UUID(bytes=data[:16])`
  together with `data[16:]`. It raises `ValueError` when fewer than sixteen bytes
  are there.
- `CharPacker` (module `CharPacker`): `encode` UTF-8-encodes a string (RFC 3629
  section 3, module `Utf8`) and reads the bytes as a big-endian unsigned integer
  (module `BigEndian`). `decode` refers to a name `i` that is defined nowhere, so
  every call raises `NameError`. The class has no `pack_pk` and no `unpack_pk`.
- `PACKERS` (module `Packers`): the constant table from field type to packer.
  `Packers.PackPk` and `Packers.UnpackPk` model calling `pack_pk` and `unpack_pk`
  on the packer looked up. For `CharPacker` those attributes are missing, so the
  calls raise `AttributeError`.

Python exceptions are modelled as `Results.Err(kind)`, naming the exception class.

`sesame/packers.py` has no string packer that splits a buffer by decoding UTF-8.
`CharPacker` only turns a string into a number, and that is all the model covers.

The main results:

- Integer round trip, both ways. For every in-range key and any suffix,
  unpacking the packed key returns the key and the suffix. Every four bytes
  repacks to itself.
- UUID round trip for any suffix.
- `CharPacker.encode` forgets exactly the leading U+0000 characters.
  `Encode(s) == Encode(t)` holds if and only if `s` and `t` are equal once their
  leading U+0000 characters are dropped. This rests on UTF-8 being uniquely
  decodable (`Utf8.EncodeInjective`).
- The registry-level round trip holds for every registered field type. For
  `CharField` it holds only vacuously: `CharPacker` has no `pack_pk`, so nothing
  packs.

## Model

| member | source | states |
|---|---|---|
| BigEndian.FromBigEndian | sesame/packers.py:54 | `int.from_bytes(b, 'big')` of n bytes is a natural number below 256^n |
| BigEndian.ToBigEndian | sesame/packers.py:43 | writing n at a width that holds it gives exactly that many bytes, and they read back as n |
| BigEndian.ToFromBigEndian | sesame/packers.py:43-47 | reading bytes as a number and writing it back at the same width returns the same bytes |
| BigEndian.FromBigEndianInjective | sesame/packers.py:54 | two byte strings without a leading zero byte that read as the same number are equal |
| BigEndian.LeadingZerosIgnored | sesame/packers.py:54 | zero bytes in front do not change the number |
| BigEndian.SignBitUpperHalf | sesame/packers.py:33-37 | the top bit of the first byte is set exactly when the unsigned value is in the upper half of its range, which is where two's complement reads a negative number |
| Utf8.EncodeChar | sesame/packers.py:53 | one character's UTF-8 form has 1 to 4 bytes, by scalar-value range; its lead byte announces the length and the rest are continuation bytes; its x bits spell the scalar value |
| Utf8.Encode | sesame/packers.py:53 | `str.encode("utf-8")` of a string has between 1 and 4 bytes per character |
| Utf8.EncodeCharInjective | sesame/packers.py:53 | two characters with the same UTF-8 form are the same character |
| Utf8.EncodeInjective | sesame/packers.py:53 | two strings with the same UTF-8 encoding are equal |
| Utf8.LeadingZeroByte | sesame/packers.py:53 | an encoding starts with byte 0 exactly when the string starts with U+0000 |
| Utf8.EncodeNuls | sesame/packers.py:53 | each leading U+0000 adds one zero byte in front of the encoding |
| IntPacker.PackPk | sesame/packers.py:32-33 | succeeds exactly for keys in [-2^31, 2^31), with four bytes whose two's-complement reading is the key; otherwise raises struct.error |
| IntPacker.UnpackPk | sesame/packers.py:36-37 | succeeds exactly when at least four bytes are there; returns the two's-complement reading of the first four, which is in 32-bit range, and the rest untouched; otherwise raises struct.error |
| IntPacker.PackThenUnpack | sesame/packers.py:32-37 | for every in-range key and any suffix, unpacking the packed key followed by the suffix returns the key and the suffix |
| IntPacker.UnpackThenPack | sesame/packers.py:32-37 | packing the key read from a buffer reproduces the buffer's first four bytes |
| IntPacker.MinusFortyTwo | sesame/packers.py:32-37 | -42 packs to FF FF FF D6 and is read back from in front of a three-byte suffix |
| UUIDPacker.PackPk | sesame/packers.py:42-43 | `.bytes` is sixteen bytes whose big-endian reading is the UUID's integer |
| UUIDPacker.UnpackPk | sesame/packers.py:46-47 | succeeds exactly when at least sixteen bytes are there; the UUID read packs back to the first sixteen bytes, and the rest is returned untouched; otherwise raises ValueError |
| UUIDPacker.PackThenUnpack | sesame/packers.py:42-47 | for every UUID and any suffix, unpacking the packed UUID followed by the suffix returns the UUID and the suffix |
| UUIDPacker.UuidOne | sesame/packers.py:42-43 | 00000000-0000-0000-0000-000000000001 packs to fifteen zero bytes followed by 01 |
| CharPacker.Encode | sesame/packers.py:52-54 | the number is below 256^(UTF-8 length); when the string does not start with U+0000 it is at least 256^(UTF-8 length - 1), so it has exactly that many base-256 digits |
| CharPacker.Decode | sesame/packers.py:56-58 | every call raises NameError |
| CharPacker.EncodeEmpty | sesame/packers.py:52-54 | the empty string encodes to 0 |
| CharPacker.EncodeKeepsBytes | sesame/packers.py:52-54 | writing the number back at the UTF-8 length gives the UTF-8 bytes |
| CharPacker.LeadingNulsIgnored | sesame/packers.py:52-54 | leading U+0000 characters do not change the number |
| CharPacker.EncodeEqualIff | sesame/packers.py:52-54 | two strings encode to the same number if and only if they agree once their leading U+0000 characters are dropped |
| CharPacker.EncodeAbc | sesame/packers.py:52-54 | "abc" encodes to 0x616263 |
| Packers.Lookup | sesame/packers.py:61 | exactly the four field types AutoField, IntegerField, UUIDField and CharField resolve; every other raises KeyError |
| Packers.RegistryTable | sesame/packers.py:61 | AutoField and IntegerField resolve to the same integer packer, UUIDField to the UUID packer, CharField to the char packer |
| Packers.PackPk | sesame/packers.py:30-61 | the integer packer gives IntPacker.PackPk of an integer key and struct.error for any other key; the UUID packer gives UUIDPacker.PackPk of a UUID key and AttributeError for any other key; the char packer has no pack_pk and always raises AttributeError |
| Packers.UnpackPk | sesame/packers.py:30-61 | the integer packer succeeds exactly on 4 or more bytes and the UUID packer on 16 or more; the key read packs back to the bytes consumed and the rest is returned untouched; a short buffer raises struct.error (integer) or ValueError (UUID); the char packer has no unpack_pk and always raises AttributeError |
| Packers.RoundTrip | sesame/packers.py:30-61 | for every registered field type, a key its packer packs is read back, with any suffix returned untouched |

## Left out

- `BasePacker` (sesame/packers.py:7-27) is left out. Its methods hold only docstrings and have no behaviour.
- A string packer that splits a buffer by greedy UTF-8 decoding, with or without a fixed-length signature anchor, is not modelled. `sesame/packers.py` has no such code.
- CharPacker.Decode: the inverse that the code may have meant (`data.to_bytes(...)`) is not modelled. As written, the call fails on the undefined name before it computes anything.
- Strings are sequences of Unicode scalar values. Python strings with lone surrogates, on which `str.encode("utf-8")` raises `UnicodeEncodeError`, cannot be expressed.
- Packers.PackPk: primary keys are integers, UUIDs or strings. Other Python values are not modelled. This includes `bool`, which `struct` accepts as an integer, and objects that merely have a `.bytes` attribute.
- Exception messages are not modelled. Only the exception class is.
- The token signing, expiry, URL handling and Django field lookup around the packers are not part of this model.
