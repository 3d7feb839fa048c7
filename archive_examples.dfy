/** Concrete byte layouts of the CArchive codec of pycarchive/__main__.py. */
module ArchiveExamples {
  import opened LittleEndian
  import opened Archive

  /** The code points of "hello". */
  const Hello: seq<Bmp> := [0x68, 0x65, 0x6C, 0x6C, 0x6F]

  /** Its ASCII bytes. */
  const HelloBytes: seq<byte> := [0x68, 0x65, 0x6C, 0x6C, 0x6F]

  /** 1 as uint16 is 01 00. */
  lemma OneAsUInt16(encoding: string, legacy: seq<Bmp> -> Option<seq<byte>>)
    ensures WriteSpec(Writing, UInt16, IntValue(1), encoding, legacy) == (Result<nat>.Ok(2), [0x01, 0x00])
  {
    assert EncodeInt(UInt16, 1) == Some(ToLE(1, 2));
    assert ToLE(1, 2) == [0x01, 0x00];
  }

  /** -1 as int16 is FF FF. */
  lemma MinusOneAsInt16(encoding: string, legacy: seq<Bmp> -> Option<seq<byte>>)
    ensures WriteSpec(Writing, Int16, IntValue(-1), encoding, legacy) == (Result<nat>.Ok(2), [0xFF, 0xFF])
  {
    assert Pow256(2) == 0x1_0000;
    assert EncodeInt(Int16, -1) == Some(ToLE(0xFFFF, 2));
    assert ToLE(0xFFFF, 2) == [0xFF, 0xFF];
  }

  /** The UTF-16LE bytes of "hello". */
  const HelloUtf16Bytes: seq<byte> := [0x68, 0x00, 0x65, 0x00, 0x6C, 0x00, 0x6C, 0x00, 0x6F, 0x00]

  /** Each character of "hello" becomes its ASCII byte followed by 00. */
  lemma HelloUtf16Text()
    ensures Utf16LeBytes(Hello) == HelloUtf16Bytes
  {
    Utf16LeAscii(Hello[4..]);
    Utf16LeAscii(Hello[3..]);
    Utf16LeAscii(Hello[2..]);
    Utf16LeAscii(Hello[1..]);
    Utf16LeAscii(Hello);
  }

  /** "hello" under UTF-16LE: the marker, the character count 5, then two
      bytes per character. */
  lemma HelloUtf16(legacy: seq<Bmp> -> Option<seq<byte>>)
    ensures WriteSpec(Writing, String, Text(Hello), "utf-16-le", legacy)
         == (Result<nat>.Ok(10), [0xFF, 0xFE, 0xFF, 0x05] + HelloUtf16Bytes)
  {
    HelloUtf16Text();
    assert Encode(Hello, "utf-16-le", legacy) == Some(HelloUtf16Bytes);
    WriteStringSpecShape(Hello, "utf-16-le", legacy, HelloUtf16Bytes);
    assert Pow256(4) == 0x1_0000_0000 by { Pow256Values(); }
    assert LengthHeader(5) == [0x05];
    assert WriteStringSpec(Hello, "utf-16-le", legacy) == (Result<nat>.Ok(10), Marker + [0x05] + HelloUtf16Bytes);
    assert WriteSpec(Writing, String, Text(Hello), "utf-16-le", legacy) == WriteStringSpec(Hello, "utf-16-le", legacy);
    assert Marker + [0x05] + HelloUtf16Bytes == [0xFF, 0xFE, 0xFF, 0x05] + HelloUtf16Bytes;
  }

  /** One step of the UTF-16LE serialisation of a character below 0x100. */
  lemma Utf16LeAscii(units: seq<Bmp>)
    requires units != [] && units[0] < 0x100
    ensures Utf16LeBytes(units) == [units[0], 0x00] + Utf16LeBytes(units[1..])
  {
    var u: nat := units[0];
    assert u % 256 == u && u / 256 == 0;
    assert Pow256(1) == 256 && Pow256(2) == 0x1_0000;
    assert ToLE(0, 1) == [0];
    assert ToLE(u, 2) == [u, 0];
  }

  /** "hello" under a single-byte encoding: the byte count 5, then the bytes. */
  lemma HelloLegacy(encoding: string, legacy: seq<Bmp> -> Option<seq<byte>>)
    requires !IsUtf16LeName(encoding) && legacy(Hello) == Some(HelloBytes)
    ensures WriteSpec(Writing, String, Text(Hello), encoding, legacy) == (Result<nat>.Ok(5), [0x05] + HelloBytes)
  {
    Pow256Values();
    assert Encode(Hello, encoding, legacy) == Some(HelloBytes);
    WriteStringSpecShape(Hello, encoding, legacy, HelloBytes);
    assert LengthHeader(5) == [0x05];
    assert WriteStringSpec(Hello, encoding, legacy) == (Result<nat>.Ok(5), [] + [0x05] + HelloBytes);
    assert WriteSpec(Writing, String, Text(Hello), encoding, legacy) == WriteStringSpec(Hello, encoding, legacy);
    assert [] + [0x05] + HelloBytes == [0x05] + HelloBytes;
  }

  /** 05 h e l l o reads as the five payload bytes in the preferred encoding. */
  lemma HelloRead(preferred: string)
    ensures ReadSpec(Reading, [0x05] + HelloBytes, 0, String, preferred) == (Ok(Encoded(preferred, HelloBytes)), 6)
  {
    var data := [0x05] + HelloBytes;
    assert Take(data, 0, 1) == [0x05];
    assert FromLE([0x05]) == 5;
    assert Take(data, 1, 5) == HelloBytes;
  }

  /** A 1000-byte count takes the escape byte and a two-byte field: FF E8 03. */
  lemma ThousandHeader()
    ensures LengthHeader(1000) == [0xFF, 0xE8, 0x03]
  {
    Pow256Values();
    assert ToLE(1000, 2) == [0xE8, 0x03];
  }

  /** Reading uint16 then uint32 from 01 00 02 00 00 00 yields 1 and 2: the
      cursor moves past each field in turn. */
  method SequentialReads() returns (a: Result<Value>, b: Result<Value>)
    ensures a == Ok(IntValue(1)) && b == Ok(IntValue(2))
  {
    var data: seq<byte> := [0x01, 0x00, 0x02, 0x00, 0x00, 0x00];
    var ar := new CArchive(data, Reading);
    assert Take(data, 0, 2) == [0x01, 0x00];
    assert FromLE([0x01, 0x00]) == 1;
    a := ar.Read(UInt16, "");
    assert ar.pos == 2;
    assert Take(data, 2, 4) == [0x02, 0x00, 0x00, 0x00];
    assert FromLE([0x02, 0x00, 0x00, 0x00]) == 2;
    b := ar.Read(UInt32, "");
  }
}
