/** IntPacker: a primary key that is a signed 32-bit integer, packed with
    struct format "!i" (network byte order, i.e. big-endian two's complement). */
module IntPacker {
  import opened BigEndian
  import opened Results

  const Int32Min: int := -0x8000_0000
  const Int32Max: int := 0x7FFF_FFFF

  predicate InInt32Range(v: int)
  {
    Int32Min <= v <= Int32Max
  }

  lemma Pow256Four()
    ensures Pow256(3) == 0x100_0000 && Pow256(4) == 0x1_0000_0000
  {
  }

  /** pack_pk: the four bytes of userPk in two's complement, most significant first;
      struct.error when userPk does not fit in a signed 32-bit integer. */
  function PackPk(userPk: int): (r: Result<seq<Byte>>)
    ensures r.Ok? <==> InInt32Range(userPk)
    ensures r.Err? ==> r.error == StructError
    ensures r.Ok? ==> |r.value| == 4 && SignedFromBigEndian(r.value) == userPk
  {
    if !InInt32Range(userPk) then Err(StructError)
    else
      Pow256Four();
      var b := ToBigEndian(if userPk < 0 then userPk + 0x1_0000_0000 else userPk, 4);
      SignBitUpperHalf(b);
      Ok(b)
  }

  /** unpack_pk: the signed integer in the first four bytes and everything after them;
      struct.error when fewer than four bytes are there. */
  function UnpackPk(data: seq<Byte>): (r: Result<(int, seq<Byte>)>)
    ensures r.Ok? <==> |data| >= 4
    ensures r.Err? ==> r.error == StructError
    ensures r.Ok? ==> InInt32Range(r.value.0)
    ensures r.Ok? ==> r.value.0 == SignedFromBigEndian(data[..4]) && r.value.1 == data[4..]
  {
    if |data| < 4 then Err(StructError)
    else
      Pow256Four();
      SignBitUpperHalf(data[..4]);
      var u := FromBigEndian(data[..4]);
      Ok((if u >= 0x8000_0000 then u - 0x1_0000_0000 else u, data[4..]))
  }

  /** Packing an in-range key and unpacking it from in front of any suffix gives back
      the key and exactly that suffix. */
  lemma PackThenUnpack(userPk: int, rest: seq<Byte>)
    requires InInt32Range(userPk)
    ensures PackPk(userPk).Ok?
    ensures UnpackPk(PackPk(userPk).value + rest) == Ok((userPk, rest))
  {
    var b := PackPk(userPk).value;
    assert (b + rest)[..4] == b && (b + rest)[4..] == rest;
  }

  /** Unpacking and packing again reproduces the four bytes that were read:
      every four-byte string is the packing of exactly one key. */
  lemma {:induction false} UnpackThenPack(data: seq<Byte>)
    requires |data| >= 4
    ensures UnpackPk(data).Ok? && PackPk(UnpackPk(data).value.0) == Ok(data[..4])
  {
    var v := UnpackPk(data).value.0;
    var b := PackPk(v).value;
    Pow256Four();
    SignBitUpperHalf(b);
    SignBitUpperHalf(data[..4]);
    ToFromBigEndian(b);
    ToFromBigEndian(data[..4]);
    assert FromBigEndian(b) == FromBigEndian(data[..4]);
  }

  /** -42 packs to FF FF FF D6, and unpacks from in front of a three-byte suffix. */
  lemma MinusFortyTwo(suffix: seq<Byte>)
    requires |suffix| == 3
    ensures PackPk(-42) == Ok([0xFF, 0xFF, 0xFF, 0xD6])
    ensures UnpackPk([0xFF, 0xFF, 0xFF, 0xD6] + suffix) == Ok((-42, suffix))
  {
    var b: seq<Byte> := [0xFF, 0xFF, 0xFF, 0xD6];
    assert b[..1] == [0xFF] && b[..2][..1] == [0xFF] && b[..3][..2] == b[..2] && b[..4][..3] == b[..3];
    assert FromBigEndian(b[..2]) == 0xFFFF;
    assert FromBigEndian(b[..3]) == 0xFF_FFFF;
    assert FromBigEndian(b) == 0xFFFF_FFD6;
    ToFromBigEndian(b);
    PackThenUnpack(-42, suffix);
  }
}

/** UUIDPacker: a primary key that is a UUID, packed as its sixteen raw bytes
    (the binary layout of RFC 4122 section 4.1.2, most significant byte first). */
module UUIDPacker {
  import opened BigEndian
  import opened Results

  type Uint128 = n: nat | n < 0x1_0000_0000_0000_0000_0000_0000_0000_0000

  /** A UUID as uuid.UUID holds it: one 128-bit integer. */
  datatype UUID = UUID(bits: Uint128)

  lemma Pow256Sixteen()
    ensures Pow256(16) == 0x1_0000_0000_0000_0000_0000_0000_0000_0000
  {
    Pow256Shift(4);
    Pow256Shift(8);
    Pow256Shift(12);
  }

  /** pack_pk (the UUID's .bytes): sixteen bytes that read, big-endian, as the UUID's integer. */
  function PackPk(userPk: UUID): (r: seq<Byte>)
    ensures |r| == 16 && FromBigEndian(r) == userPk.bits
  {
    Pow256Sixteen();
    ToBigEndian(userPk.bits, 16)
  }

  /** unpack_pk: the UUID whose bytes are the first sixteen, and everything after them;
      ValueError when fewer than sixteen bytes are there. */
  function UnpackPk(data: seq<Byte>): (r: Result<(UUID, seq<Byte>)>)
    ensures r.Ok? <==> |data| >= 16
    ensures r.Err? ==> r.error == ValueError
    ensures r.Ok? ==> PackPk(r.value.0) == data[..16] && r.value.1 == data[16..]
  {
    if |data| < 16 then Err(ValueError)
    else
      Pow256Sixteen();
      ToFromBigEndian(data[..16]);
      Ok((UUID(FromBigEndian(data[..16])), data[16..]))
  }

  /** Unpacking a packed UUID from in front of any suffix gives back the UUID and exactly
      that suffix. */
  lemma PackThenUnpack(userPk: UUID, rest: seq<Byte>)
    ensures UnpackPk(PackPk(userPk) + rest) == Ok((userPk, rest))
  {
    var b := PackPk(userPk);
    assert (b + rest)[..16] == b && (b + rest)[16..] == rest;
  }

  /** The UUID 00000000-0000-0000-0000-000000000001 packs to fifteen zero bytes and then 01. */
  lemma UuidOne()
    ensures PackPk(UUID(1)) == Zeros(15) + [1]
  {
    var b: seq<Byte> := Zeros(15) + [1];
    LeadingZerosIgnored(15, [1]);
    assert FromBigEndian([1]) == 1;
    ToFromBigEndian(b);
  }
}

/** CharPacker: a string primary key turned into a number, the big-endian reading of
    its UTF-8 bytes. The class has no pack_pk or unpack_pk. */
module CharPacker {
  import opened BigEndian
  import opened Results
  import Utf8

  /** encode: the natural number whose base-256 digits, most significant first, are the
      UTF-8 bytes of data; it needs exactly that many bytes unless data starts with U+0000. */
  function Encode(data: string): (n: nat)
    ensures n < Pow256(|Utf8.Encode(data)|)
    ensures data != [] && data[0] != '\0' ==> Pow256(|Utf8.Encode(data)| - 1) <= n
  {
    var b := Utf8.Encode(data);
    if data != [] && data[0] != '\0' then
      Utf8.LeadingZeroByte(data);
      NonZeroLeadLowerBound(b);
      FromBigEndian(b)
    else
      FromBigEndian(b)
  }

  /** decode: evaluating its result refers to the name i, which is defined nowhere,
      so every call raises NameError. */
  function Decode(data: int): (r: Result<seq<Byte>>)
    ensures r.Err? && r.error == NameError
  {
    Err(NameError)
  }

  /** The empty string encodes to 0. */
  lemma EncodeEmpty()
    ensures Encode("") == 0
  {
  }

  /** The UTF-8 bytes can be read back off the number once their count is known. */
  lemma EncodeKeepsBytes(data: string)
    ensures ToBigEndian(Encode(data), |Utf8.Encode(data)|) == Utf8.Encode(data)
  {
    ToFromBigEndian(Utf8.Encode(data));
  }

  /** Leading U+0000 characters do not change the number. */
  lemma LeadingNulsIgnored(k: nat, data: string)
    ensures Encode(Utf8.Nuls(k) + data) == Encode(data)
  {
    Utf8.EncodeNuls(k, data);
    LeadingZerosIgnored(k, Utf8.Encode(data));
  }

  /** The number of leading U+0000 characters of s. */
  function NulCount(s: string): (k: nat)
    ensures k <= |s| && (forall i :: 0 <= i < k ==> s[i] == '\0') && (k < |s| ==> s[k] != '\0')
  {
    if s == [] || s[0] != '\0' then 0 else 1 + NulCount(s[1..])
  }

  /** s without its leading U+0000 characters. */
  function StripNuls(s: string): (t: string)
  {
    s[NulCount(s)..]
  }

  lemma SplitNuls(s: string)
    ensures s == Utf8.Nuls(NulCount(s)) + StripNuls(s)
  {
    var k := NulCount(s);
    assert Utf8.Nuls(k) == s[..k];
  }

  /** Two strings encode to the same number exactly when they agree after their leading
      U+0000 characters are dropped: those are all that encode forgets. */
  lemma EncodeEqualIff(s: string, t: string)
    ensures Encode(s) == Encode(t) <==> StripNuls(s) == StripNuls(t)
  {
    SplitNuls(s);
    SplitNuls(t);
    LeadingNulsIgnored(NulCount(s), StripNuls(s));
    LeadingNulsIgnored(NulCount(t), StripNuls(t));
    var s', t' := StripNuls(s), StripNuls(t);
    if Encode(s) == Encode(t) {
      if s' != [] { Utf8.LeadingZeroByte(s'); }
      if t' != [] { Utf8.LeadingZeroByte(t'); }
      FromBigEndianInjective(Utf8.Encode(s'), Utf8.Encode(t'));
      Utf8.EncodeInjective(s', t');
    }
  }

  /** "abc" encodes to 0x616263. */
  lemma EncodeAbc()
    ensures Encode("abc") == 0x616263
  {
    var b: seq<Byte> := [0x61, 0x62, 0x63];
    assert Utf8.Encode("c") == [0x63];
    assert Utf8.Encode("bc") == [0x62, 0x63];
    assert Utf8.Encode("abc") == b;
    assert b[..2][..1] == [0x61] && b[..3][..2] == b[..2];
    assert FromBigEndian(b[..2]) == 0x6162;
  }
}

/** The registry PACKERS, from the type of a model's primary-key field to the packer
    for it, and the dispatch of pack_pk and unpack_pk to the packer looked up. */
module Packers {
  import opened BigEndian
  import opened Results
  import I = IntPacker
  import U = UUIDPacker

  datatype Packer = IntPacker | UUIDPacker | CharPacker

  /** A primary-key value as the token layer hands it over. */
  datatype PrimaryKey = IntPk(i: int) | UuidPk(u: U.UUID) | StrPk(s: string)

  const PACKERS: map<string, Packer> :=
    map["AutoField" := IntPacker, "IntegerField" := IntPacker,
        "UUIDField" := UUIDPacker, "CharField" := CharPacker]

  /** PACKERS[fieldType]: the four field types resolve, every other raises KeyError. */
  function Lookup(fieldType: string): (r: Result<Packer>)
    ensures r.Ok? <==> fieldType in {"AutoField", "IntegerField", "UUIDField", "CharField"}
    ensures r.Err? ==> r.error == KeyError
  {
    if fieldType in PACKERS then Ok(PACKERS[fieldType]) else Err(KeyError)
  }

  /** AutoField and IntegerField share the integer packer; UUIDField and CharField each
      have their own. */
  lemma RegistryTable()
    ensures Lookup("AutoField") == Lookup("IntegerField") == Ok(IntPacker)
    ensures Lookup("UUIDField") == Ok(UUIDPacker) && Lookup("CharField") == Ok(CharPacker)
  {
  }

  /** packer.pack_pk(userPk). struct.pack raises struct.error on a value that is not an
      integer; UUIDPacker reads .bytes, absent from other values (AttributeError);
      CharPacker has no pack_pk at all (AttributeError). */
  function PackPk(p: Packer, userPk: PrimaryKey): (r: Result<seq<Byte>>)
    ensures p == CharPacker ==> r == Err(AttributeError)
    ensures p == IntPacker ==> r == (if userPk.IntPk? then I.PackPk(userPk.i) else Err(StructError))
    ensures p == UUIDPacker ==> r == (if userPk.UuidPk? then Ok(U.PackPk(userPk.u)) else Err(AttributeError))
    ensures p == IntPacker ==> (r.Ok? <==> userPk.IntPk? && I.InInt32Range(userPk.i))
    ensures p == IntPacker && r.Ok? ==> |r.value| == 4
    ensures p == UUIDPacker ==> (r.Ok? <==> userPk.UuidPk?)
    ensures p == UUIDPacker && r.Ok? ==> |r.value| == 16
  {
    match p
    case IntPacker => if userPk.IntPk? then I.PackPk(userPk.i) else Err(StructError)
    case UUIDPacker => if userPk.UuidPk? then Ok(U.PackPk(userPk.u)) else Err(AttributeError)
    case CharPacker => Err(AttributeError)
  }

  /** packer.unpack_pk(data): the key in front of data and the bytes after it. */
  function UnpackPk(p: Packer, data: seq<Byte>): (r: Result<(PrimaryKey, seq<Byte>)>)
    ensures p == CharPacker ==> r == Err(AttributeError)
    ensures p == IntPacker ==> (r.Ok? <==> |data| >= 4)
    ensures p == UUIDPacker ==> (r.Ok? <==> |data| >= 16)
    ensures p == IntPacker && r.Err? ==> r.error == StructError
    ensures p == UUIDPacker && r.Err? ==> r.error == ValueError
    ensures p == IntPacker && r.Ok? ==> r.value.1 == data[4..] && PackPk(p, r.value.0) == Ok(data[..4])
    ensures p == UUIDPacker && r.Ok? ==> r.value.1 == data[16..] && PackPk(p, r.value.0) == Ok(data[..16])
  {
    match p
    case IntPacker =>
      (match I.UnpackPk(data)
       case Ok((v, rest)) => I.UnpackThenPack(data); Ok((IntPk(v), rest))
       case Err(e) => Err(e))
    case UUIDPacker =>
      (match U.UnpackPk(data)
       case Ok((u, rest)) => Ok((UuidPk(u), rest))
       case Err(e) => Err(e))
    case CharPacker => Err(AttributeError)
  }

  /** For every registered field type, a key its packer packs is unpacked again from in
      front of any suffix, and the suffix comes back untouched. */
  lemma RoundTrip(fieldType: string, userPk: PrimaryKey, rest: seq<Byte>)
    requires Lookup(fieldType).Ok?
    requires PackPk(Lookup(fieldType).value, userPk).Ok?
    ensures UnpackPk(Lookup(fieldType).value, PackPk(Lookup(fieldType).value, userPk).value + rest)
            == Ok((userPk, rest))
  {
    var p := Lookup(fieldType).value;
    match p
    case IntPacker => I.PackThenUnpack(userPk.i, rest);
    case UUIDPacker => U.PackThenUnpack(userPk.u, rest);
  }
}
