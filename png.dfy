/**
 * The smallest valid PNG file the comment tests start from: one truecolour
 * pixel, built as the eight-byte signature followed by an IHDR, an IDAT and
 * an IEND chunk. Each chunk is a 32-bit big-endian data length, the four
 * type bytes, the data, and a 32-bit big-endian CRC-32 of type and data.
 */
module Png {
  import opened Bytes
  import Crc
  import Pack

  /** The eight bytes every PNG file starts with. */
  const Signature: seq<Byte> := [0x89, 0x50, 0x4E, 0x47, 0x0D, 0x0A, 0x1A, 0x0A]

  /** The chunk types `IHDR`, `IDAT` and `IEND` as bytes. */
  const Ihdr: seq<Byte> := [0x49, 0x48, 0x44, 0x52]
  const Idat: seq<Byte> := [0x49, 0x44, 0x41, 0x54]
  const Iend: seq<Byte> := [0x49, 0x45, 0x4E, 0x44]

  /** The image header fields of the one-pixel image. */
  const Width := 1
  const Height := 1
  const BitDepth := 8
  const ColorType := 2
  const Compression := 0
  const FilterMethod := 0
  const Interlace := 0

  /** The fixed zlib stream of the pixel, taken as opaque bytes. */
  const IdatPayload: seq<Byte> := [0x78, 0x9c, 0x63, 0xf8, 0xcf, 0x00, 0x00, 0x03, 0x03, 0x01, 0x00]

  /** The 13 IHDR data bytes: width and height as 32-bit big-endian numbers, then five one-byte fields. */
  function IhdrData(): seq<Byte> {
    Pack.BigEndian32(Width) + Pack.BigEndian32(Height)
      + [BitDepth, ColorType, Compression, FilterMethod, Interlace]
  }

  /** A chunk: its four type bytes and its data; length and checksum follow from these. */
  datatype Chunk = Chunk(kind: seq<Byte>, data: seq<Byte>)

  /** A chunk that can be written: a four-byte type and a length that fits in 32 bits. */
  predicate WellFormed(c: Chunk) {
    |c.kind| == 4 && |c.data| < 0x1_0000_0000
  }

  /** The checksum of a chunk: CRC-32 over its type bytes followed by its data. */
  function ChunkCrc(kind: seq<Byte>, data: seq<Byte>): nat {
    Crc.Crc32(ToCodeUnits(kind + data))
  }

  /** The bytes of one chunk. */
  function Serialize(c: Chunk): seq<Byte> {
    Pack.BigEndian32(|c.data|) + c.kind + c.data + Pack.BigEndian32(ChunkCrc(c.kind, c.data))
  }

  /** The bytes of a run of chunks, one after the other. */
  function SerializeAll(chunks: seq<Chunk>): seq<Byte> {
    if chunks == [] then [] else Serialize(chunks[0]) + SerializeAll(chunks[1..])
  }

  /** The three chunks of the one-pixel image. */
  function MinimalChunks(): seq<Chunk> {
    [Chunk(Ihdr, IhdrData()), Chunk(Idat, IdatPayload), Chunk(Iend, [])]
  }

  /** What `generateMinimalPng()` returns: the signature followed by the three chunks. */
  function MinimalPng(): seq<Byte> {
    Signature + SerializeAll(MinimalChunks())
  }

  /** The file is the signature followed by the three chunks written one after the other. */
  lemma MinimalPngChunks()
    ensures MinimalPng()
         == Signature + Serialize(Chunk(Ihdr, IhdrData())) + Serialize(Chunk(Idat, IdatPayload)) + Serialize(Chunk(Iend, []))
  {
    var cs := MinimalChunks();
    assert cs[1..][1..][1..] == [];
  }

  /** The format and the values the generator packs the IHDR data with. */
  const IhdrFormat := "IIBBBBB"
  const IhdrValues := [Width, Height, BitDepth, ColorType, Compression, FilterMethod, Interlace]

  /** The two 32-bit fields of the IHDR data. */
  lemma PackedIhdrSizes()
    ensures Pack.Fields(IhdrFormat[..2], IhdrValues, false) == [0, 0, 0, 1, 0, 0, 0, 1]
  {
    Pack.BigEndianDecodeEncode([0, 0, 0, 1]);
    assert IhdrFormat[..0] == [];
    assert Pack.Fields(IhdrFormat[..1], IhdrValues, false) == [0, 0, 0, 1] by {
      Pack.FieldsSnoc(IhdrFormat[..1], IhdrValues, false);
      assert IhdrFormat[..1][..0] == IhdrFormat[..0];
    }
    assert Pack.Fields(IhdrFormat[..2], IhdrValues, false) == [0, 0, 0, 1, 0, 0, 0, 1] by {
      Pack.FieldsSnoc(IhdrFormat[..2], IhdrValues, false);
      assert IhdrFormat[..2][..1] == IhdrFormat[..1];
    }
  }

  /** The bit depth and colour type fields of the IHDR data. */
  lemma PackedIhdrPixelFormat()
    ensures Pack.Fields(IhdrFormat[..4], IhdrValues, false) == [0, 0, 0, 1, 0, 0, 0, 1, 8, 2]
  {
    PackedIhdrSizes();
    assert Pack.Fields(IhdrFormat[..3], IhdrValues, false) == [0, 0, 0, 1, 0, 0, 0, 1, 8] by {
      Pack.FieldsSnoc(IhdrFormat[..3], IhdrValues, false);
      assert IhdrFormat[..3][..2] == IhdrFormat[..2];
    }
    assert Pack.Fields(IhdrFormat[..4], IhdrValues, false) == [0, 0, 0, 1, 0, 0, 0, 1, 8, 2] by {
      Pack.FieldsSnoc(IhdrFormat[..4], IhdrValues, false);
      assert IhdrFormat[..4][..3] == IhdrFormat[..3];
    }
  }

  /** The compression and filter method fields of the IHDR data. */
  lemma PackedIhdrMethods()
    ensures Pack.Fields(IhdrFormat[..6], IhdrValues, false) == [0, 0, 0, 1, 0, 0, 0, 1, 8, 2, 0, 0]
  {
    PackedIhdrPixelFormat();
    assert Pack.Fields(IhdrFormat[..5], IhdrValues, false) == [0, 0, 0, 1, 0, 0, 0, 1, 8, 2, 0] by {
      Pack.FieldsSnoc(IhdrFormat[..5], IhdrValues, false);
      assert IhdrFormat[..5][..4] == IhdrFormat[..4];
    }
    assert Pack.Fields(IhdrFormat[..6], IhdrValues, false) == [0, 0, 0, 1, 0, 0, 0, 1, 8, 2, 0, 0] by {
      Pack.FieldsSnoc(IhdrFormat[..6], IhdrValues, false);
      assert IhdrFormat[..6][..5] == IhdrFormat[..5];
    }
  }

  /** `pack(">IIBBBBB", ...)` writes the IHDR data bytes. */
  lemma PackedIhdr()
    ensures Pack.Packed(">IIBBBBB", IhdrValues) == IhdrData()
  {
    PackedIhdrMethods();
    assert Pack.Fields(IhdrFormat[..7], IhdrValues, false) == [0, 0, 0, 1, 0, 0, 0, 1, 8, 2, 0, 0, 0] by {
      Pack.FieldsSnoc(IhdrFormat[..7], IhdrValues, false);
      assert IhdrFormat[..7][..6] == IhdrFormat[..6];
    }
    assert ">IIBBBBB"[1..] == IhdrFormat[..7];
    IhdrDataBytes();
  }

  /** The chunk writer: length field, type, data and checksum field, as the generator assembles each chunk. */
  method WriteChunk(table: array<bv32>, kind: seq<Byte>, data: seq<Byte>) returns (chunk: seq<Byte>)
    requires Crc.IsCrcTable(table)
    ensures chunk == Serialize(Chunk(kind, data))
  {
    var crc := Crc.ComputeCrc32(table, ToCodeUnits(kind + data));
    var lengthField := Pack.Pack(">L", [|data|]);
    var crcField := Pack.Pack(">L", [crc]);
    Pack.PackedBigEndianLong(|data|);
    Pack.PackedBigEndianLong(crc);
    chunk := lengthField + kind + data + crcField;
  }

  /** The generator: the signature, then the IHDR, IDAT and IEND chunks. */
  method GenerateMinimalPng(table: array<bv32>) returns (png: seq<Byte>)
    requires Crc.IsCrcTable(table)
    ensures png == MinimalPng()
  {
    png := Signature;
    var ihdrData := Pack.Pack(">IIBBBBB", IhdrValues);
    PackedIhdr();
    var ihdrChunk := WriteChunk(table, Ihdr, ihdrData);
    png := png + ihdrChunk;
    var idatChunk := WriteChunk(table, Idat, IdatPayload);
    png := png + idatChunk;
    var iendChunk := WriteChunk(table, Iend, []);
    png := png + iendChunk;
    MinimalPngChunks();
  }

  datatype Option<T> = None | Some(value: T)

  /**
   * Reads a run of chunks, checking each checksum. What it accepts is
   * exactly a run of well-formed chunks written one after the other.
   */
  function ParseChunks(b: seq<Byte>): (r: Option<seq<Chunk>>)
    ensures r.Some? ==> SerializeAll(r.value) == b
    ensures r.Some? ==> forall c :: c in r.value ==> WellFormed(c)
    decreases |b|
  {
    if b == [] then Some([])
    else if |b| < 12 then None
    else
      var length := Pack.DecodeBigEndian32(b[..4]);
      if |b| < 12 + length then None
      else
        var kind := b[4..8];
        var data := b[8..8 + length];
        var crc := Pack.DecodeBigEndian32(b[8 + length..12 + length]);
        if crc != ChunkCrc(kind, data) then None
        else
          match ParseChunks(b[12 + length..])
          case None => None
          case Some(rest) =>
            ChunkAtFront(b, length);
            assert ([Chunk(kind, data)] + rest)[1..] == rest;
            Some([Chunk(kind, data)] + rest)
  }

  /** Bytes whose length and checksum fields agree with what they frame start with that chunk. */
  lemma ChunkAtFront(b: seq<Byte>, length: nat)
    requires 12 + length <= |b|
    requires Pack.DecodeBigEndian32(b[..4]) == length
    requires Pack.DecodeBigEndian32(b[8 + length..12 + length]) == ChunkCrc(b[4..8], b[8..8 + length])
    ensures b == Serialize(Chunk(b[4..8], b[8..8 + length])) + b[12 + length..]
  {
    Pack.BigEndianDecodeEncode(b[..4]);
    Pack.BigEndianDecodeEncode(b[8 + length..12 + length]);
    assert b == b[..4] + b[4..8] + b[8..8 + length] + b[8 + length..12 + length] + b[12 + length..];
  }

  /** Reads a PNG file: the signature, then a run of chunks. */
  function ParsePng(b: seq<Byte>): (r: Option<seq<Chunk>>)
    ensures r.Some? ==> b == Signature + SerializeAll(r.value)
  {
    if |b| < 8 || b[..8] != Signature then None
    else
      match ParseChunks(b[8..])
      case None => None
      case Some(chunks) =>
        SplitAfterSignature(b);
        Some(chunks)
  }

  /** Bytes that start with the signature are the signature followed by the rest. */
  lemma SplitAfterSignature(b: seq<Byte>)
    requires |b| >= 8 && b[..8] == Signature
    ensures b == Signature + b[8..]
  {
    assert b == b[..8] + b[8..];
  }

  /** Where the fields of a written chunk sit, whatever follows it. */
  lemma SerializedFields(c: Chunk, rest: seq<Byte>)
    requires WellFormed(c)
    ensures var b := Serialize(c) + rest; var n := |c.data|;
      && 12 + n <= |b|
      && b[..4] == Pack.BigEndian32(n)
      && b[4..8] == c.kind
      && b[8..8 + n] == c.data
      && b[8 + n..12 + n] == Pack.BigEndian32(ChunkCrc(c.kind, c.data))
      && b[12 + n..] == rest
  {
    var lengthField, crcField := Pack.BigEndian32(|c.data|), Pack.BigEndian32(ChunkCrc(c.kind, c.data));
    assert |lengthField| == 4 && |crcField| == 4;
    assert Serialize(c) + rest == lengthField + c.kind + c.data + crcField + rest;
  }

  /** A chunk written after `prefix`: its length and type fields, and its size. */
  lemma ChunkAfter(prefix: seq<Byte>, c: Chunk, rest: seq<Byte>)
    requires WellFormed(c)
    ensures var p, at := prefix + (Serialize(c) + rest), |prefix|;
      && |Serialize(c)| == 12 + |c.data|
      && p[at..at + 4] == Pack.BigEndian32(|c.data|)
      && p[at + 4..at + 8] == c.kind
      && p == (prefix + Serialize(c)) + rest
  {
    SerializedFields(c, rest);
    var b := Serialize(c) + rest;
    var p, at := prefix + b, |prefix|;
    assert p[at..at + 4] == b[..4];
    assert p[at + 4..at + 8] == b[4..8];
  }

  /** A written chunk in front of bytes that parse is read back as that chunk. */
  lemma ParseFrontChunk(c: Chunk, rest: seq<Byte>, chunks: seq<Chunk>)
    requires WellFormed(c)
    requires ParseChunks(rest) == Some(chunks)
    ensures ParseChunks(Serialize(c) + rest) == Some([c] + chunks)
  {
    var b := Serialize(c) + rest;
    var n := |c.data|;
    SerializedFields(c, rest);
    Pack.BigEndianInjective(n);
    Pack.BigEndianInjective(ChunkCrc(c.kind, c.data));
    assert Pack.DecodeBigEndian32(b[8 + n..12 + n]) == ChunkCrc(b[4..8], b[8..8 + n]);
  }

  /** Writing well-formed chunks and reading them back gives the same chunks. */
  lemma {:induction false} ParseSerializeAll(chunks: seq<Chunk>)
    requires forall c :: c in chunks ==> WellFormed(c)
    ensures ParseChunks(SerializeAll(chunks)) == Some(chunks)
  {
    if chunks != [] {
      assert chunks[0] in chunks;
      assert forall d :: d in chunks[1..] ==> d in chunks;
      ParseSerializeAll(chunks[1..]);
      ParseFrontChunk(chunks[0], SerializeAll(chunks[1..]), chunks[1..]);
      assert [chunks[0]] + chunks[1..] == chunks;
    }
  }

  /** The generated file reads back as the signature and the three chunks. */
  lemma MinimalPngParses()
    ensures ParsePng(MinimalPng()) == Some(MinimalChunks())
  {
    var cs := MinimalChunks();
    assert forall c :: c in cs ==> WellFormed(c);
    ParseSerializeAll(cs);
    assert MinimalPng()[..8] == Signature;
    assert MinimalPng()[8..] == SerializeAll(cs);
  }

  /** The IHDR data bytes spelled out. */
  lemma IhdrDataBytes()
    ensures IhdrData() == [0, 0, 0, 1, 0, 0, 0, 1, 8, 2, 0, 0, 0]
  {
  }

  /** The code units the IHDR checksum covers: the chunk type and its 13 data bytes. */
  const IhdrCrcInput: seq<bv16> := [0x49, 0x48, 0x44, 0x52, 0x00, 0x00, 0x00, 0x01, 0x00, 0x00, 0x00, 0x01, 0x08, 0x02, 0x00, 0x00, 0x00]

  /** The code units the IDAT checksum covers: the chunk type and its 11 data bytes. */
  const IdatCrcInput: seq<bv16> := [0x49, 0x44, 0x41, 0x54, 0x78, 0x9C, 0x63, 0xF8, 0xCF, 0x00, 0x00, 0x03, 0x03, 0x01, 0x00]

  /** Checksum steps 0 to 2 over `IhdrCrcInput`. */
  lemma IhdrCrcValueSteps1()
    ensures Crc.Step(Crc.AllOnes, 0x49) == 0x22fd_e946
    ensures Crc.Step(0x22fd_e946, 0x48) == 0xe79a_d0ee
    ensures Crc.Step(0xe79a_d0ee, 0x44) == 0x36e4_d026
  {
  }

  /** Checksum steps 3 to 5 over `IhdrCrcInput`. */
  lemma IhdrCrcValueSteps2()
    ensures Crc.Step(0x36e4_d026, 0x52) == 0x575e_51f5
    ensures Crc.Step(0x575e_51f5, 0x00) == 0xcd80_58c2
    ensures Crc.Step(0xcd80_58c2, 0x00) == 0x75a7_23c4
  {
  }

  /** Checksum steps 6 to 8 over `IhdrCrcInput`. */
  lemma IhdrCrcValueSteps3()
    ensures Crc.Step(0x75a7_23c4, 0x00) == 0x9c7c_a18a
    ensures Crc.Step(0x9c7c_a18a, 0x01) == 0x7af6_2609
    ensures Crc.Step(0x7af6_2609, 0x00) == 0x79a6_4e82
  {
  }

  /** Checksum steps 9 to 11 over `IhdrCrcInput`. */
  lemma IhdrCrcValueSteps4()
    ensures Crc.Step(0x79a6_4e82, 0x00) == 0x03cf_4442
    ensures Crc.Step(0x03cf_4442, 0x00) == 0x98d1_eff8
    ensures Crc.Step(0x98d1_eff8, 0x01) == 0xc4f9_9b57
  {
  }

  /** Checksum steps 12 to 14 over `IhdrCrcInput`. */
  lemma IhdrCrcValueSteps5()
    ensures Crc.Step(0xc4f9_9b57, 0x08) == 0xfb10_b5fe
    ensures Crc.Step(0xfb10_b5fe, 0x02) == 0xb4f0_ae82
    ensures Crc.Step(0xb4f0_ae82, 0x00) == 0x0302_12a2
  {
  }

  /** Checksum steps 15 to 16 over `IhdrCrcInput`. */
  lemma IhdrCrcValueSteps6()
    ensures Crc.Step(0x0302_12a2, 0x00) == 0x38db_c0d6
    ensures Crc.Step(0x38db_c0d6, 0x00) == 0x6f88_ac21
  {
  }

  /** The checksum of the IHDR chunk of a 1x1 truecolour image. */
  lemma IhdrCrcValue()
    ensures Crc.Crc32(IhdrCrcInput) == 0x9077_53de
  {
    var ps: seq<seq<bv16>> := [[0x49, 0x48, 0x44], [0x52, 0x00, 0x00], [0x00, 0x01, 0x00], [0x00, 0x00, 0x01], [0x08, 0x02, 0x00], [0x00, 0x00]];
    assert IhdrCrcInput == ps[0] + ps[1] + ps[2] + ps[3] + ps[4] + ps[5];
    IhdrCrcValueSteps1();
    IhdrCrcValueSteps2();
    IhdrCrcValueSteps3();
    IhdrCrcValueSteps4();
    IhdrCrcValueSteps5();
    IhdrCrcValueSteps6();
    Crc.ContinueThree(Crc.AllOnes, 0x49, 0x48, 0x44);
    Crc.RegisterAppend([], ps[0]);
    assert [] + ps[0] == ps[0];
    Crc.ContinueThree(0x36e4_d026, 0x52, 0x00, 0x00);
    Crc.RegisterAppend(ps[0], ps[1]);
    Crc.ContinueThree(0x75a7_23c4, 0x00, 0x01, 0x00);
    Crc.RegisterAppend(ps[0] + ps[1], ps[2]);
    Crc.ContinueThree(0x79a6_4e82, 0x00, 0x00, 0x01);
    Crc.RegisterAppend(ps[0] + ps[1] + ps[2], ps[3]);
    Crc.ContinueThree(0xc4f9_9b57, 0x08, 0x02, 0x00);
    Crc.RegisterAppend(ps[0] + ps[1] + ps[2] + ps[3], ps[4]);
    Crc.ContinueTwo(0x0302_12a2, 0x00, 0x00);
    Crc.RegisterAppend(ps[0] + ps[1] + ps[2] + ps[3] + ps[4], ps[5]);
  }
  /** Checksum steps 0 to 2 over `IdatCrcInput`. */
  lemma IdatCrcValueSteps1()
    ensures Crc.Step(Crc.AllOnes, 0x49) == 0x22fd_e946
    ensures Crc.Step(0x22fd_e946, 0x44) == 0xee2c_9cc5
    ensures Crc.Step(0xee2c_9cc5, 0x41) == 0xea3b_6ba5
  {
  }

  /** Checksum steps 3 to 5 over `IdatCrcInput`. */
  lemma IdatCrcValueSteps2()
    ensures Crc.Step(0xea3b_6ba5, 0x54) == 0xca50_f9e1
    ensures Crc.Step(0xca50_f9e1, 0x78) == 0x8919_7b19
    ensures Crc.Step(0x8919_7b19, 0x9C) == 0x9d5b_6ed4
  {
  }

  /** Checksum steps 6 to 8 over `IdatCrcInput`. */
  lemma IdatCrcValueSteps3()
    ensures Crc.Step(0x9d5b_6ed4, 0x63) == 0x5598_7d41
    ensures Crc.Step(0x5598_7d41, 0xF8) == 0xb2e8_9355
    ensures Crc.Step(0xb2e8_9355, 0xCF) == 0x1068_92c9
  {
  }

  /** Checksum steps 9 to 11 over `IdatCrcInput`. */
  lemma IdatCrcValueSteps4()
    ensures Crc.Step(0x1068_92c9, 0x00) == 0xe2a8_1286
    ensures Crc.Step(0xe2a8_1286, 0x00) == 0x0439_8e07
    ensures Crc.Step(0x0439_8e07, 0x03) == 0x0769_fd97
  {
  }

  /** Checksum steps 12 to 14 over `IdatCrcInput`. */
  lemma IdatCrcValueSteps5()
    ensures Crc.Step(0x0769_fd97, 0x03) == 0xf765_3ea0
    ensures Crc.Step(0xf765_3ea0, 0x01) == 0xa126_f640
    ensures Crc.Step(0xa126_f640, 0x00) == 0x767d_6766
  {
  }

  /** The checksum of the IDAT chunk holding the fixed compressed pixel. */
  lemma IdatCrcValue()
    ensures Crc.Crc32(IdatCrcInput) == 0x8982_9899
  {
    var ps: seq<seq<bv16>> := [[0x49, 0x44, 0x41], [0x54, 0x78, 0x9C], [0x63, 0xF8, 0xCF], [0x00, 0x00, 0x03], [0x03, 0x01, 0x00]];
    assert IdatCrcInput == ps[0] + ps[1] + ps[2] + ps[3] + ps[4];
    IdatCrcValueSteps1();
    IdatCrcValueSteps2();
    IdatCrcValueSteps3();
    IdatCrcValueSteps4();
    IdatCrcValueSteps5();
    Crc.ContinueThree(Crc.AllOnes, 0x49, 0x44, 0x41);
    Crc.RegisterAppend([], ps[0]);
    assert [] + ps[0] == ps[0];
    Crc.ContinueThree(0xea3b_6ba5, 0x54, 0x78, 0x9C);
    Crc.RegisterAppend(ps[0], ps[1]);
    Crc.ContinueThree(0x9d5b_6ed4, 0x63, 0xF8, 0xCF);
    Crc.RegisterAppend(ps[0] + ps[1], ps[2]);
    Crc.ContinueThree(0x1068_92c9, 0x00, 0x00, 0x03);
    Crc.RegisterAppend(ps[0] + ps[1] + ps[2], ps[3]);
    Crc.ContinueThree(0x0769_fd97, 0x03, 0x01, 0x00);
    Crc.RegisterAppend(ps[0] + ps[1] + ps[2] + ps[3], ps[4]);
  }
  /** The bytes the IHDR checksum covers: the chunk type and its 13 data bytes. */
  lemma IhdrChecksummedBytes()
    ensures Ihdr + IhdrData() == [0x49, 0x48, 0x44, 0x52, 0x00, 0x00, 0x00, 0x01, 0x00, 0x00, 0x00, 0x01, 0x08, 0x02, 0x00, 0x00, 0x00]
  {
    IhdrDataBytes();
  }

  /** Code units 0 to 1 of `IhdrCrcInput`. */
  lemma IhdrUnits1()
    ensures ToCodeUnits([0x49, 0x48]) == [0x49, 0x48]
  {
  }

  /** Code units 2 to 3 of `IhdrCrcInput`. */
  lemma IhdrUnits2()
    ensures ToCodeUnits([0x44, 0x52]) == [0x44, 0x52]
  {
  }

  /** Code units 4 to 5 of `IhdrCrcInput`. */
  lemma IhdrUnits3()
    ensures ToCodeUnits([0x00, 0x00]) == [0x00, 0x00]
  {
  }

  /** Code units 6 to 7 of `IhdrCrcInput`. */
  lemma IhdrUnits4()
    ensures ToCodeUnits([0x00, 0x01]) == [0x00, 0x01]
  {
  }

  /** Code units 8 to 9 of `IhdrCrcInput`. */
  lemma IhdrUnits5()
    ensures ToCodeUnits([0x00, 0x00]) == [0x00, 0x00]
  {
  }

  /** Code units 10 to 11 of `IhdrCrcInput`. */
  lemma IhdrUnits6()
    ensures ToCodeUnits([0x00, 0x01]) == [0x00, 0x01]
  {
  }

  /** Code units 12 to 13 of `IhdrCrcInput`. */
  lemma IhdrUnits7()
    ensures ToCodeUnits([0x08, 0x02]) == [0x08, 0x02]
  {
  }

  /** Code units 14 to 15 of `IhdrCrcInput`. */
  lemma IhdrUnits8()
    ensures ToCodeUnits([0x00, 0x00]) == [0x00, 0x00]
  {
  }

  /** Code units 16 to 16 of `IhdrCrcInput`. */
  lemma IhdrUnits9()
    ensures ToCodeUnits([0x00]) == [0x00]
  {
  }

  /** The code units the IHDR checksum reads. */
  lemma IhdrChecksummedUnits()
    ensures ToCodeUnits([0x49, 0x48, 0x44, 0x52, 0x00, 0x00, 0x00, 0x01, 0x00, 0x00, 0x00, 0x01, 0x08, 0x02, 0x00, 0x00, 0x00]) == IhdrCrcInput
  {
    var bs: seq<seq<Byte>> := [[0x49, 0x48], [0x44, 0x52], [0x00, 0x00], [0x00, 0x01], [0x00, 0x00], [0x00, 0x01], [0x08, 0x02], [0x00, 0x00], [0x00]];
    var us: seq<seq<bv16>> := [[0x49, 0x48], [0x44, 0x52], [0x00, 0x00], [0x00, 0x01], [0x00, 0x00], [0x00, 0x01], [0x08, 0x02], [0x00, 0x00], [0x00]];
    assert [0x49, 0x48, 0x44, 0x52, 0x00, 0x00, 0x00, 0x01, 0x00, 0x00, 0x00, 0x01, 0x08, 0x02, 0x00, 0x00, 0x00] == bs[0] + bs[1] + bs[2] + bs[3] + bs[4] + bs[5] + bs[6] + bs[7] + bs[8];
    assert IhdrCrcInput == us[0] + us[1] + us[2] + us[3] + us[4] + us[5] + us[6] + us[7] + us[8];
    IhdrUnits1();
    IhdrUnits2();
    IhdrUnits3();
    IhdrUnits4();
    IhdrUnits5();
    IhdrUnits6();
    IhdrUnits7();
    IhdrUnits8();
    IhdrUnits9();
    ToCodeUnitsAppend(bs[0], bs[1]);
    ToCodeUnitsAppend(bs[0] + bs[1], bs[2]);
    ToCodeUnitsAppend(bs[0] + bs[1] + bs[2], bs[3]);
    ToCodeUnitsAppend(bs[0] + bs[1] + bs[2] + bs[3], bs[4]);
    ToCodeUnitsAppend(bs[0] + bs[1] + bs[2] + bs[3] + bs[4], bs[5]);
    ToCodeUnitsAppend(bs[0] + bs[1] + bs[2] + bs[3] + bs[4] + bs[5], bs[6]);
    ToCodeUnitsAppend(bs[0] + bs[1] + bs[2] + bs[3] + bs[4] + bs[5] + bs[6], bs[7]);
    ToCodeUnitsAppend(bs[0] + bs[1] + bs[2] + bs[3] + bs[4] + bs[5] + bs[6] + bs[7], bs[8]);
  }

  /** The bytes the IDAT checksum covers: the chunk type and the 11 payload bytes. */
  lemma IdatChecksummedBytes()
    ensures Idat + IdatPayload == [0x49, 0x44, 0x41, 0x54, 0x78, 0x9C, 0x63, 0xF8, 0xCF, 0x00, 0x00, 0x03, 0x03, 0x01, 0x00]
  {
  }

  /** Code units 0 to 1 of `IdatCrcInput`. */
  lemma IdatUnits1()
    ensures ToCodeUnits([0x49, 0x44]) == [0x49, 0x44]
  {
  }

  /** Code units 2 to 3 of `IdatCrcInput`. */
  lemma IdatUnits2()
    ensures ToCodeUnits([0x41, 0x54]) == [0x41, 0x54]
  {
  }

  /** Code units 4 to 5 of `IdatCrcInput`. */
  lemma IdatUnits3()
    ensures ToCodeUnits([0x78, 0x9C]) == [0x78, 0x9C]
  {
  }

  /** Code units 6 to 7 of `IdatCrcInput`. */
  lemma IdatUnits4()
    ensures ToCodeUnits([0x63, 0xF8]) == [0x63, 0xF8]
  {
  }

  /** Code units 8 to 9 of `IdatCrcInput`. */
  lemma IdatUnits5()
    ensures ToCodeUnits([0xCF, 0x00]) == [0xCF, 0x00]
  {
  }

  /** Code units 10 to 11 of `IdatCrcInput`. */
  lemma IdatUnits6()
    ensures ToCodeUnits([0x00, 0x03]) == [0x00, 0x03]
  {
  }

  /** Code units 12 to 13 of `IdatCrcInput`. */
  lemma IdatUnits7()
    ensures ToCodeUnits([0x03, 0x01]) == [0x03, 0x01]
  {
  }

  /** Code units 14 to 14 of `IdatCrcInput`. */
  lemma IdatUnits8()
    ensures ToCodeUnits([0x00]) == [0x00]
  {
  }

  /** The code units the IDAT checksum reads. */
  lemma IdatChecksummedUnits()
    ensures ToCodeUnits([0x49, 0x44, 0x41, 0x54, 0x78, 0x9C, 0x63, 0xF8, 0xCF, 0x00, 0x00, 0x03, 0x03, 0x01, 0x00]) == IdatCrcInput
  {
    var bs: seq<seq<Byte>> := [[0x49, 0x44], [0x41, 0x54], [0x78, 0x9C], [0x63, 0xF8], [0xCF, 0x00], [0x00, 0x03], [0x03, 0x01], [0x00]];
    var us: seq<seq<bv16>> := [[0x49, 0x44], [0x41, 0x54], [0x78, 0x9C], [0x63, 0xF8], [0xCF, 0x00], [0x00, 0x03], [0x03, 0x01], [0x00]];
    assert [0x49, 0x44, 0x41, 0x54, 0x78, 0x9C, 0x63, 0xF8, 0xCF, 0x00, 0x00, 0x03, 0x03, 0x01, 0x00] == bs[0] + bs[1] + bs[2] + bs[3] + bs[4] + bs[5] + bs[6] + bs[7];
    assert IdatCrcInput == us[0] + us[1] + us[2] + us[3] + us[4] + us[5] + us[6] + us[7];
    IdatUnits1();
    IdatUnits2();
    IdatUnits3();
    IdatUnits4();
    IdatUnits5();
    IdatUnits6();
    IdatUnits7();
    IdatUnits8();
    ToCodeUnitsAppend(bs[0], bs[1]);
    ToCodeUnitsAppend(bs[0] + bs[1], bs[2]);
    ToCodeUnitsAppend(bs[0] + bs[1] + bs[2], bs[3]);
    ToCodeUnitsAppend(bs[0] + bs[1] + bs[2] + bs[3], bs[4]);
    ToCodeUnitsAppend(bs[0] + bs[1] + bs[2] + bs[3] + bs[4], bs[5]);
    ToCodeUnitsAppend(bs[0] + bs[1] + bs[2] + bs[3] + bs[4] + bs[5], bs[6]);
    ToCodeUnitsAppend(bs[0] + bs[1] + bs[2] + bs[3] + bs[4] + bs[5] + bs[6], bs[7]);
  }

  /** The checksum of the IHDR chunk the generator writes. */
  lemma IhdrChunkCrc()
    ensures ChunkCrc(Ihdr, IhdrData()) == 0x9077_53DE
  {
    IhdrChecksummedBytes();
    IhdrChecksummedUnits();
    IhdrCrcValue();
  }

  /** The checksum of the IDAT chunk the generator writes. */
  lemma IdatChunkCrc()
    ensures ChunkCrc(Idat, IdatPayload) == 0x8982_9899
  {
    IdatChecksummedBytes();
    IdatChecksummedUnits();
    IdatCrcValue();
  }

  /** Code units 0 to 1 of `Iend`. */
  lemma IendUnits1()
    ensures ToCodeUnits([0x49, 0x45]) == [0x49, 0x45]
  {
  }

  /** Code units 2 to 3 of `Iend`. */
  lemma IendUnits2()
    ensures ToCodeUnits([0x4E, 0x44]) == [0x4E, 0x44]
  {
  }

  /** The code units the IEND checksum reads. */
  lemma IendChecksummedUnits()
    ensures ToCodeUnits(Iend) == [0x49, 0x45, 0x4E, 0x44]
  {
    var bs: seq<seq<Byte>> := [[0x49, 0x45], [0x4E, 0x44]];
    var us: seq<seq<bv16>> := [[0x49, 0x45], [0x4E, 0x44]];
    assert Iend == bs[0] + bs[1];
    assert [0x49, 0x45, 0x4E, 0x44] == us[0] + us[1];
    IendUnits1();
    IendUnits2();
    ToCodeUnitsAppend(bs[0], bs[1]);
  }

  /** The checksum of the IEND chunk: the well-known last four bytes of every PNG file. */
  lemma IendChunkCrc()
    ensures ChunkCrc(Iend, []) == 0xAE42_6082
  {
    assert Iend + [] == Iend;
    IendChecksummedUnits();
    Crc.IendCrc();
  }

  /** The IHDR chunk: length 13, type, the header fields and their checksum. */
  lemma IhdrChunkBytes()
    ensures Serialize(Chunk(Ihdr, IhdrData()))
         == [0x00, 0x00, 0x00, 0x0D] + [0x49, 0x48, 0x44, 0x52]
          + [0x00, 0x00, 0x00, 0x01, 0x00, 0x00, 0x00, 0x01, 0x08, 0x02, 0x00, 0x00, 0x00]
          + [0x90, 0x77, 0x53, 0xDE]
  {
    IhdrChunkCrc();
    IhdrDataBytes();
    Pack.BigEndianDecodeEncode([0x00, 0x00, 0x00, 0x0D]);
    Pack.BigEndianDecodeEncode([0x90, 0x77, 0x53, 0xDE]);
  }

  /** The IDAT chunk: length 11, type, the compressed pixel and its checksum. */
  lemma IdatChunkBytes()
    ensures Serialize(Chunk(Idat, IdatPayload))
         == [0x00, 0x00, 0x00, 0x0B] + [0x49, 0x44, 0x41, 0x54]
          + [0x78, 0x9C, 0x63, 0xF8, 0xCF, 0x00, 0x00, 0x03, 0x03, 0x01, 0x00]
          + [0x89, 0x82, 0x98, 0x99]
  {
    IdatChunkCrc();
    Pack.BigEndianDecodeEncode([0x00, 0x00, 0x00, 0x0B]);
    Pack.BigEndianDecodeEncode([0x89, 0x82, 0x98, 0x99]);
  }

  /** The IEND chunk: length 0, type and checksum. */
  lemma IendChunkBytes()
    ensures Serialize(Chunk(Iend, [])) == [0x00, 0x00, 0x00, 0x00] + [0x49, 0x45, 0x4E, 0x44] + [] + [0xAE, 0x42, 0x60, 0x82]
  {
    IendChunkCrc();
    Pack.BigEndianDecodeEncode([0x00, 0x00, 0x00, 0x00]);
    Pack.BigEndianDecodeEncode([0xAE, 0x42, 0x60, 0x82]);
  }

  /** Every byte of the generated file, chunk by chunk. */
  lemma MinimalPngBytes()
    ensures MinimalPng()
         == [0x89, 0x50, 0x4E, 0x47, 0x0D, 0x0A, 0x1A, 0x0A]
          + ([0x00, 0x00, 0x00, 0x0D] + [0x49, 0x48, 0x44, 0x52]
          + [0x00, 0x00, 0x00, 0x01, 0x00, 0x00, 0x00, 0x01, 0x08, 0x02, 0x00, 0x00, 0x00]
          + [0x90, 0x77, 0x53, 0xDE])
          + ([0x00, 0x00, 0x00, 0x0B] + [0x49, 0x44, 0x41, 0x54]
          + [0x78, 0x9C, 0x63, 0xF8, 0xCF, 0x00, 0x00, 0x03, 0x03, 0x01, 0x00]
          + [0x89, 0x82, 0x98, 0x99])
          + ([0x00, 0x00, 0x00, 0x00] + [0x49, 0x45, 0x4E, 0x44] + [] + [0xAE, 0x42, 0x60, 0x82])
  {
    MinimalPngChunks();
    IhdrChunkBytes();
    IdatChunkBytes();
    IendChunkBytes();
  }

  /**
   * The generated file is 68 bytes: the signature, then the IHDR chunk at
   * offset 8 with 13 data bytes, the IDAT chunk at 33 with 11 and the IEND
   * chunk at 56 with none, each chunk starting with its length and type.
   */
  lemma MinimalPngLayout()
    ensures |MinimalPng()| == 68
    ensures MinimalPng()[..8] == Signature
    ensures MinimalPng()[8..12] == Pack.BigEndian32(13) && MinimalPng()[12..16] == Ihdr
    ensures MinimalPng()[33..37] == Pack.BigEndian32(11) && MinimalPng()[37..41] == Idat
    ensures MinimalPng()[56..60] == Pack.BigEndian32(0) && MinimalPng()[60..64] == Iend
  {
    assert |IhdrData()| == 13;
    ThreeChunkLayout(Chunk(Ihdr, IhdrData()), Chunk(Idat, IdatPayload), Chunk(Iend, []));
  }

  /** Three chunks written one after the other. */
  lemma SerializeThree(a: Chunk, b: Chunk, c: Chunk)
    ensures SerializeAll([a, b, c]) == Serialize(a) + (Serialize(b) + (Serialize(c) + []))
  {
    assert [a, b, c][1..] == [b, c];
    assert [b, c][1..] == [c];
    assert [c][1..] == [];
    assert SerializeAll([c]) == Serialize(c) + [];
    assert SerializeAll([b, c]) == Serialize(b) + SerializeAll([c]);
  }

  /** Where the length and type fields of three chunks written after the signature sit. */
  lemma ThreeChunkLayout(a: Chunk, b: Chunk, c: Chunk)
    requires WellFormed(a) && WellFormed(b) && WellFormed(c)
    ensures var p := Signature + SerializeAll([a, b, c]);
      var i := 20 + |a.data|;
      var j := i + 12 + |b.data|;
      && |p| == j + 12 + |c.data|
      && p[..8] == Signature
      && p[8..12] == Pack.BigEndian32(|a.data|) && p[12..16] == a.kind
      && p[i..i + 4] == Pack.BigEndian32(|b.data|) && p[i + 4..i + 8] == b.kind
      && p[j..j + 4] == Pack.BigEndian32(|c.data|) && p[j + 4..j + 8] == c.kind
  {
    var sa, sb, sc := Serialize(a), Serialize(b), Serialize(c);
    SerializeThree(a, b, c);
    ChunkAfter(Signature, a, sb + (sc + []));
    ChunkAfter(Signature + sa, b, sc + []);
    ChunkAfter(Signature + sa + sb, c, []);
  }
}
