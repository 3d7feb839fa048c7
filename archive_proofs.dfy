/** Properties of the CArchive codec of pycarchive/__main__.py, stated over
    the one-step descriptions ReadSpec, DecodeHeader and WriteSpec that the
    handle's methods are proved to follow. */
module ArchiveProofs {
  import opened LittleEndian
  import opened Archive

  // ---------------------------------------------------------------------
  // Mode guard and type dispatch

  /** A read on a handle that is not in read mode fails before touching the
      stream: the cursor stays where it was. */
  lemma ReadNeedsReadMode(mode: Mode, data: seq<byte>, pos: nat, t: Type, preferred: string)
    requires pos <= |data| && mode != Reading
    ensures ReadSpec(mode, data, pos, t, preferred) == (Err(NotInReadMode), pos)
  {
  }

  /** A write on a handle that is not in write mode fails and appends nothing. */
  lemma WriteNeedsWriteMode(mode: Mode, t: Type, v: Value, encoding: string,
                            legacy: seq<Bmp> -> Option<seq<byte>>)
    requires mode != Writing
    ensures WriteSpec(mode, t, v, encoding, legacy) == (Err(NotInWriteMode), [])
  {
  }

  /** The unknown type is rejected by both directions, without consuming or
      appending a byte. */
  lemma UnknownTypeRejected(data: seq<byte>, pos: nat, preferred: string, v: Value, encoding: string,
                            legacy: seq<Bmp> -> Option<seq<byte>>)
    requires pos <= |data|
    ensures ReadSpec(Reading, data, pos, Unknown, preferred) == (Err(UnknownType), pos)
    ensures WriteSpec(Writing, Unknown, v, encoding, legacy) == (Err(UnknownType), [])
  {
  }

  // ---------------------------------------------------------------------
  // Fixed-width integers

  /** Two's complement by the sign bit: a signed field reads as its unsigned
      value, less 256^n when the top bit of its last byte is set. */
  lemma SignedBySignBit(bs: seq<byte>)
    requires bs != []
    ensures FromLESigned(bs) == FromLE(bs) - if bs[|bs| - 1] >= 0x80 then Pow256(|bs|) else 0
  {
    var n := |bs|;
    var init, last := bs[..n - 1], bs[n - 1];
    assert bs == init + [last];
    FromLEAppend(init, [last]);
    var p, low := Pow256(n - 1), FromLE(init);
    assert FromLE([last]) == last;
    assert FromLE(bs) == low + p * last;
    assert Half(n) == 128 * p;
    if last >= 0x80 {
      ScaleAtLeast(p, last, 0x80);
    } else {
      ScaleAtLeast(p, 0x7F, last);
    }
  }

  /** p * a >= p * b for a >= b and p >= 0. */
  lemma ScaleAtLeast(p: nat, a: int, b: int)
    requires a >= b
    ensures p * a >= p * b
  {
    var k := a - b;
    assert p * a == p * b + p * k;
  }

  /** The range of an integer type is a window of 256^n consecutive values:
      from 0 for the unsigned types, from -256^n/2 for the signed ones. */
  lemma InRangeWindow(t: Type, i: int)
    requires IsInteger(t)
    ensures InRange(t, i) <==> 0 <= i + (if IsSigned(t) then Half(Width(t)) else 0) < Pow256(Width(t))
  {
  }

  /** An integer read of a type of width n consumes n bytes when the stream
      holds them, and returns their little-endian value, in the type's range.
      When fewer remain, it consumes what is left and decodes that. */
  lemma ReadInteger(data: seq<byte>, pos: nat, t: Type, preferred: string)
    requires pos <= |data| && IsInteger(t)
    ensures var n := Width(t);
      var (r, p) := ReadSpec(Reading, data, pos, t, preferred);
      r.Ok? && r.value.IntValue? &&
      (pos + n <= |data| ==>
         p == pos + n && r.value == IntValue(IntegerOf(t, data[pos..pos + n])) && InRange(t, r.value.i)) &&
      (pos + n > |data| ==> p == |data| && r.value == IntValue(IntegerOf(t, data[pos..])))
  {
  }

  /** An integer write appends exactly the field's width in bytes, and reading
      them back with the same type, wherever they stand in a stream, returns
      the value written. A value outside the type's range fails with an
      overflow and appends nothing. */
  lemma IntegerRoundTrip(t: Type, i: int, prefix: seq<byte>, rest: seq<byte>, encoding: string,
                         legacy: seq<Bmp> -> Option<seq<byte>>, preferred: string)
    requires IsInteger(t)
    ensures var (w, out) := WriteSpec(Writing, t, IntValue(i), encoding, legacy);
      if InRange(t, i) then
        w == Ok(Width(t)) && |out| == Width(t) &&
        ReadSpec(Reading, prefix + out + rest, |prefix|, t, preferred) == (Ok(IntValue(i)), |prefix| + Width(t))
      else w == Err(OverflowError) && out == []
  {
    if InRange(t, i) {
      var out := EncodeInt(t, i).value;
      var data := prefix + out + rest;
      assert data[|prefix|..|prefix| + |out|] == out;
    }
  }

  /** A value of the wrong kind is refused by an integer write. */
  lemma IntegerWriteNeedsInt(t: Type, v: Value, encoding: string, legacy: seq<Bmp> -> Option<seq<byte>>)
    requires IsInteger(t) && !v.IntValue?
    ensures WriteSpec(Writing, t, v, encoding, legacy) == (Err(WrongValueKind), [])
  {
  }

  // ---------------------------------------------------------------------
  // Floats, carried as byte images

  /** A float read consumes the format's width; a full image is returned as
      read, a short one fails as struct.unpack does, the cursor having moved
      past the bytes that were there. */
  lemma ReadFloatImage(data: seq<byte>, pos: nat, t: Type, preferred: string)
    requires pos <= |data| && (t == Float || t == Double)
    ensures var (r, p) := ReadSpec(Reading, data, pos, t, preferred);
      (pos + Width(t) <= |data| ==> r == Ok(FloatImage(data[pos..pos + Width(t)])) && p == pos + Width(t)) &&
      (pos + Width(t) > |data| ==> r == Err(StructError) && p == |data|)
  {
  }

  /** Writing a float image and reading it back with the same type returns it. */
  lemma FloatRoundTrip(t: Type, image: seq<byte>, rest: seq<byte>, encoding: string,
                       legacy: seq<Bmp> -> Option<seq<byte>>, preferred: string)
    requires (t == Float || t == Double) && |image| == Width(t)
    ensures var (w, out) := WriteSpec(Writing, t, FloatImage(image), encoding, legacy);
      w == Ok(Width(t)) && out == image &&
      ReadSpec(Reading, out + rest, 0, t, preferred) == (Ok(FloatImage(image)), Width(t))
  {
    assert (image + rest)[..|image|] == image;
  }

  // ---------------------------------------------------------------------
  // String length header: decoding

  /** At the end of the stream the one-byte read is empty, which is not the
      escape byte, so the count is 0 and nothing is consumed. */
  lemma HeaderAtEnd(data: seq<byte>, preferred: string)
    ensures DecodeHeader(data, |data|, preferred) == (Header(0, preferred), |data|)
  {
  }

  /** A first byte other than 0xFF is itself the count; one byte is consumed. */
  lemma HeaderOneByte(data: seq<byte>, pos: nat, preferred: string)
    requires pos < |data| && data[pos] != 0xFF
    ensures DecodeHeader(data, pos, preferred) == (Header(data[pos], preferred), pos + 1)
  {
    assert Take(data, pos, 1) == [data[pos]];
  }

  /** 0xFF then two bytes that are neither the marker's FE FF nor FF FF: a
      16-bit count; three bytes are consumed. */
  lemma HeaderTwoBytes(data: seq<byte>, pos: nat, preferred: string)
    requires pos + 3 <= |data| && data[pos] == 0xFF
    requires data[pos + 1..pos + 3] != [0xFE, 0xFF] && data[pos + 1..pos + 3] != [0xFF, 0xFF]
    ensures DecodeHeader(data, pos, preferred)
         == (Header(data[pos + 1] as int + 256 * (data[pos + 2] as int), preferred), pos + 3)
  {
    assert Take(data, pos, 1) == [0xFF];
    var b2 := data[pos + 1..pos + 3];
    assert b2 == [data[pos + 1], data[pos + 2]];
    assert FromLE(b2) == data[pos + 1] + 256 * FromLE(b2[1..]);
  }

  /** FF FF FF then four bytes: a 32-bit count; seven bytes are consumed. */
  lemma HeaderFourBytes(data: seq<byte>, pos: nat, preferred: string)
    requires pos + 7 <= |data| && data[pos..pos + 3] == [0xFF, 0xFF, 0xFF]
    ensures DecodeHeader(data, pos, preferred) == (Header(FromLE(data[pos + 3..pos + 7]), preferred), pos + 7)
  {
    assert data[pos] == 0xFF;
    assert Take(data, pos, 1) == [0xFF];
    assert Take(data, pos + 1, 2) == [0xFF, 0xFF];
  }

  /** After the marker FF FE FF comes a character count with the same
      escalation (one byte, or 0xFF and two bytes, or FF FF FF and four);
      the byte count is twice the character count. */
  lemma HeaderUtf16(data: seq<byte>, pos: nat, preferred: string)
    requires pos + 4 <= |data| && data[pos..pos + 3] == Marker
    ensures data[pos + 3] != 0xFF ==>
      DecodeHeader(data, pos, preferred) == (Header(2 * (data[pos + 3] as int), Utf16Le), pos + 4)
    ensures pos + 6 <= |data| && data[pos + 3] == 0xFF && data[pos + 4..pos + 6] != [0xFF, 0xFF] ==>
      DecodeHeader(data, pos, preferred) == (Header(2 * FromLE(data[pos + 4..pos + 6]), Utf16Le), pos + 6)
    ensures pos + 10 <= |data| && data[pos + 3..pos + 6] == [0xFF, 0xFF, 0xFF] ==>
      DecodeHeader(data, pos, preferred) == (Header(2 * FromLE(data[pos + 6..pos + 10]), Utf16Le), pos + 10)
  {
    assert data[pos] == 0xFF;
    assert Take(data, pos, 1) == [0xFF];
    assert Take(data, pos + 1, 2) == [0xFE, 0xFF];
    assert DecodeHeader(data, pos, preferred) == DecodeUtf16Count(data, pos + 3);
    assert Take(data, pos + 3, 1) == [data[pos + 3]];
    if pos + 6 <= |data| && data[pos + 3] == 0xFF {
      assert Take(data, pos + 4, 2) == data[pos + 4..pos + 6];
      if pos + 10 <= |data| && data[pos + 3..pos + 6] == [0xFF, 0xFF, 0xFF] {
        assert data[pos + 4..pos + 6] == [0xFF, 0xFF];
      }
    }
  }

  /** A string read decodes the header, then consumes exactly `count`
      payload bytes when the stream holds them (what is left otherwise), and
      returns them with the header's encoding. */
  lemma ReadStringPayload(data: seq<byte>, pos: nat, preferred: string)
    requires pos <= |data|
    ensures var (h, p) := DecodeHeader(data, pos, preferred);
      var (r, q) := ReadSpec(Reading, data, pos, String, preferred);
      (p + h.count <= |data| ==> r == Ok(Encoded(h.encoding, data[p..p + h.count])) && q == p + h.count) &&
      (p + h.count > |data| ==> r == Ok(Encoded(h.encoding, data[p..])) && q == |data|)
  {
  }

  // ---------------------------------------------------------------------
  // String length header: encoding

  /** The tiers of the written header: each ends in a little-endian field
      holding the count, after zero to three 0xFF bytes. */
  lemma LengthHeaderTiers(count: nat)
    requires count < Pow256(4)
    ensures var h := LengthHeader(count);
      (count < 0xFF ==> h == [count]) &&
      (0xFF <= count < 0xFFFF ==> |h| == 3 && h[0] == 0xFF && FromLE(h[1..]) == count) &&
      (0xFFFF <= count < 0xFF_FFFF ==> |h| == 6 && h[..2] == [0xFF, 0xFF] && FromLE(h[2..]) == count) &&
      (0xFF_FFFF <= count ==> |h| == 7 && h[..3] == [0xFF, 0xFF, 0xFF] && FromLE(h[3..]) == count)
  {
    var h := LengthHeader(count);
    if count < 0xFF {
      assert ToLE(count, 1) == [count % 256] + ToLE(count / 256, 0);
    } else if count < 0xFFFF {
      assert h[1..] == ToLE(count, 2);
    } else if count < 0xFF_FFFF {
      assert h[2..] == ToLE(count, 4);
    } else {
      assert h[3..] == ToLE(count, 4);
    }
  }

  /** UTF-16LE bytes decode back to the code units they came from. */
  lemma {:induction false} Utf16LeRoundTrip(units: seq<Bmp>)
    ensures Utf16LeUnits(Utf16LeBytes(units)) == Some(units)
  {
    if units != [] {
      var bs := Utf16LeBytes(units);
      var head := ToLE(units[0], 2);
      assert bs == head + Utf16LeBytes(units[1..]);
      assert bs[..2] == head && bs[2..] == Utf16LeBytes(units[1..]);
      Utf16LeRoundTrip(units[1..]);
      assert units == [units[0]] + units[1..];
    }
  }

  // ---------------------------------------------------------------------
  // Round trips between the string writer and reader

  /** The count field is distinguishable from the sentinels: a two-byte
      field holds FE FF only for 0xFFFE and FF FF only for 0xFFFF. */
  lemma TwoByteField(count: nat)
    requires count < 0x1_0000
    ensures ToLE(count, 2) == [0xFE, 0xFF] <==> count == 0xFFFE
    ensures ToLE(count, 2) == [0xFF, 0xFF] <==> count == 0xFFFF
  {
    assert FromLE([0xFE, 0xFF]) == 0xFFFE;
    assert FromLE([0xFF, 0xFF]) == 0xFFFF;
    Pow256Values();
    if ToLE(count, 2) == [0xFE, 0xFF] { assert FromLE(ToLE(count, 2)) == 0xFFFE; }
    if count == 0xFFFE { ToLEFromLE([0xFE, 0xFF]); }
    if count == 0xFFFF { ToLEFromLE([0xFF, 0xFF]); }
  }

  /** Decoding a header that the writer produced (after the marker, or with
      none), over the tiers that the reader understands. */
  lemma DecodeCountTiers(data: seq<byte>, pos: nat, count: nat, preferred: string, utf16: bool)
    requires count < Pow256(4)
    requires (count < 0xFFFF && (utf16 || count != 0xFFFE)) || count >= 0xFF_FFFF
    requires pos + |LengthHeader(count)| <= |data|
    requires data[pos..pos + |LengthHeader(count)|] == LengthHeader(count)
    ensures !utf16 ==> DecodeHeader(data, pos, preferred) == (Header(count, preferred), pos + |LengthHeader(count)|)
    ensures utf16 ==> DecodeUtf16Count(data, pos) == (Header(2 * count, Utf16Le), pos + |LengthHeader(count)|)
  {
    Pow256Values();
    LengthHeaderTiers(count);
    var h := LengthHeader(count);
    var n := |h|;
    assert data[pos..pos + n] == h;
    if count < 0xFF {
      assert data[pos] == count;
      assert Take(data, pos, 1) == [count];
      assert FromLE([count]) == count;
    } else if count < 0xFFFF {
      assert data[pos] == 0xFF;
      assert Take(data, pos, 1) == [0xFF];
      var f := data[pos + 1..pos + 3];
      assert f == h[1..] == ToLE(count, 2);
      TwoByteField(count);
      assert Take(data, pos + 1, 2) == f;
    } else {
      FourByteTier(data, pos, count, preferred, utf16);
    }
  }

  /** The FF FF FF tier: the escape and a four-byte field decode to the
      field's count, as a byte count or, after the marker, a character count. */
  lemma FourByteTier(data: seq<byte>, pos: nat, count: nat, preferred: string, utf16: bool)
    requires count < Pow256(4)
    requires pos + 7 <= |data| && data[pos..pos + 7] == [0xFF, 0xFF, 0xFF] + ToLE(count, 4)
    ensures !utf16 ==> DecodeHeader(data, pos, preferred) == (Header(count, preferred), pos + 7)
    ensures utf16 ==> DecodeUtf16Count(data, pos) == (Header(2 * count, Utf16Le), pos + 7)
  {
    var f := ToLE(count, 4);
    var h := [0xFF, 0xFF, 0xFF] + f;
    assert data[pos..pos + 3] == h[..3] == [0xFF, 0xFF, 0xFF];
    assert data[pos + 3..pos + 7] == h[3..] == f;
    assert data[pos] == 0xFF;
    assert Take(data, pos, 1) == [0xFF];
    assert Take(data, pos + 1, 2) == data[pos + 1..pos + 3] == [0xFF, 0xFF];
    assert Take(data, pos + 3, 4) == f;
  }

  /** Write-then-read of a string header recovers the count and the encoding
      for counts below 0xFFFF (a legacy count of 0xFFFE excepted) and for
      counts of 0xFFFFFF or more. */
  lemma HeaderRoundTrip(count: nat, utf16: bool, rest: seq<byte>, preferred: string)
    requires count < 0x1_0000_0000
    requires (count < 0xFFFF && (utf16 || count != 0xFFFE)) || count >= 0xFF_FFFF
    ensures var header := (if utf16 then Marker else []) + LengthHeader(count);
      DecodeHeader(header + rest, 0, preferred)
        == (Header(if utf16 then 2 * count else count, if utf16 then Utf16Le else preferred), |header|)
  {
    Pow256Values();
    var h := LengthHeader(count);
    var marker: seq<byte> := if utf16 then Marker else [];
    var data := marker + h + rest;
    var m := |marker|;
    assert data[m..m + |h|] == h;
    DecodeCountTiers(data, m, count, preferred, utf16);
    if utf16 {
      assert data[..3] == Marker;
      AfterMarker(data, preferred);
    }
  }

  /** The bytes a string write appends: the UTF-16 marker when the encoding
      is named "utf-16-le" or "utf-16le", the length header for the count
      (the number of characters under those two names, the number of encoded
      bytes under any other), then the encoded text; the result is the
      text's byte length. A count too wide for four bytes fails after the
      marker and three 0xFF bytes; an encoder failure appends nothing. */
  lemma WriteStringLayout(units: seq<Bmp>, encoding: string, legacy: seq<Bmp> -> Option<seq<byte>>)
    ensures Encode(units, encoding, legacy).None? ==>
      WriteSpec(Writing, String, Text(units), encoding, legacy) == (Err(EncodeError), [])
    ensures Encode(units, encoding, legacy).Some? ==>
      var text := Encode(units, encoding, legacy).value;
      var utf16 := IsUtf16LeName(encoding);
      var count := if utf16 then |units| else |text|;
      var marker := if utf16 then Marker else [];
      WriteSpec(Writing, String, Text(units), encoding, legacy)
        == if count < 0x1_0000_0000 then (Result<nat>.Ok(|text|), marker + LengthHeader(count) + text)
           else (Err(OverflowError), marker + [0xFF, 0xFF, 0xFF])
  {
    Pow256Values();
    if Encode(units, encoding, legacy).Some? {
      WriteStringSpecShape(units, encoding, legacy, Encode(units, encoding, legacy).value);
    }
  }

  /** Writing a string and reading it back recovers its encoded payload and
      its encoding (UTF-16LE when a UTF-16LE name was given, the preferred
      encoding otherwise), on the same count domain as HeaderRoundTrip; the
      read ends exactly where the write did. With Utf16LeRoundTrip, a UTF-16
      payload gives back the code units written. */
  lemma StringRoundTrip(units: seq<Bmp>, encoding: string, legacy: seq<Bmp> -> Option<seq<byte>>,
                        rest: seq<byte>, preferred: string)
    requires Encode(units, encoding, legacy).Some?
    requires var count := if IsUtf16LeName(encoding) then |units| else |Encode(units, encoding, legacy).value|;
      count < 0x1_0000_0000 &&
      ((count < 0xFFFF && (IsUtf16LeName(encoding) || count != 0xFFFE)) || count >= 0xFF_FFFF)
    ensures var text := Encode(units, encoding, legacy).value;
      var (w, out) := WriteSpec(Writing, String, Text(units), encoding, legacy);
      w == Ok(|text|) &&
      ReadSpec(Reading, out + rest, 0, String, preferred)
        == (Ok(Encoded(if IsUtf16LeName(encoding) then Utf16Le else preferred, text)), |out|)
  {
    var text := Encode(units, encoding, legacy).value;
    var utf16 := IsUtf16LeName(encoding);
    var count := if utf16 then |units| else |text|;
    WriteStringLayout(units, encoding, legacy);
    StringReadBack(count, utf16, text, rest, preferred);
  }

  /** The reader's view of a written string: the length header for `count`
      (after the marker when `utf16`), the `text` it announces, then any bytes. */
  lemma StringReadBack(count: nat, utf16: bool, text: seq<byte>, rest: seq<byte>, preferred: string)
    requires count < 0x1_0000_0000
    requires (count < 0xFFFF && (utf16 || count != 0xFFFE)) || count >= 0xFF_FFFF
    requires |text| == if utf16 then 2 * count else count
    ensures var header := (if utf16 then Marker else []) + LengthHeader(count);
      ReadSpec(Reading, header + text + rest, 0, String, preferred)
        == (Ok(Encoded(if utf16 then Utf16Le else preferred, text)), |header| + |text|)
  {
    var header := (if utf16 then Marker else []) + LengthHeader(count);
    var data := header + text + rest;
    assert data == header + (text + rest);
    HeaderRoundTrip(count, utf16, text + rest, preferred);
    assert data[|header|..|header| + |text|] == text;
    ReadAfterHeader(data, |header|, text, if utf16 then Utf16Le else preferred, preferred);
  }

  /** A string read whose header decodes to exactly the bytes that follow it. */
  lemma ReadAfterHeader(data: seq<byte>, p: nat, text: seq<byte>, encoding: string, preferred: string)
    requires p + |text| <= |data| && data[p..p + |text|] == text
    requires DecodeHeader(data, 0, preferred) == (Header(|text|, encoding), p)
    ensures ReadSpec(Reading, data, 0, String, preferred) == (Ok(Encoded(encoding, text)), p + |text|)
  {
    assert Take(data, p, |text|) == text;
  }

  // ---------------------------------------------------------------------
  // Where the writer and the reader disagree

  /** The writer's third tier (0xFFFF <= count < 0xFFFFFF) emits only two
      0xFF bytes before a four-byte field; the reader takes the field's low
      byte as part of a two-byte count, or reads a four-byte count starting
      one byte late. Either way the count it reports is not the one written,
      whatever follows the header. */
  lemma ThirdTierMisread(count: nat, utf16: bool, rest: seq<byte>, preferred: string)
    requires 0xFFFF <= count < 0xFF_FFFF
    ensures var header := (if utf16 then Marker else []) + LengthHeader(count);
      DecodeHeader(header + rest, 0, preferred).0.count != (if utf16 then 2 * count else count)
  {
    Pow256Values();
    var h := LengthHeader(count);
    assert |h| == 6;
    var marker: seq<byte> := if utf16 then Marker else [];
    var data := marker + h + rest;
    var m := |marker|;
    assert data[m..m + 6] == h;
    LengthHeaderTiers(count);
    if utf16 {
      assert data[..3] == Marker;
      AfterMarker(data, preferred);
    } else {
      assert data[0] == 0xFF && data[1] == 0xFF;
      EscapeWithoutMarker(data, preferred);
    }
    EscapedCountMisread(data, m, count);
  }

  /** Past a leading FF FE FF the reader is in its UTF-16 sub-header. */
  lemma AfterMarker(data: seq<byte>, preferred: string)
    requires 3 <= |data| && data[..3] == Marker
    ensures DecodeHeader(data, 0, preferred) == DecodeUtf16Count(data, 3)
  {
    assert data[0] == 0xFF;
    assert Take(data, 0, 1) == [0xFF];
    assert Take(data, 1, 2) == data[1..3] == [0xFE, 0xFF];
  }

  /** Without the marker, a header starting FF FF escalates exactly like the
      UTF-16 sub-header does (which counts characters, hence the factor 2). */
  lemma EscapeWithoutMarker(data: seq<byte>, preferred: string)
    requires 2 <= |data| && data[0] == 0xFF && data[1] == 0xFF
    ensures 2 * DecodeHeader(data, 0, preferred).0.count == DecodeUtf16Count(data, 0).0.count
  {
    assert Take(data, 0, 1) == [0xFF];
    assert Take(data, 1, 2)[0] == 0xFF;
  }

  /** The third-tier header FF FF c0 c1 c2 00, decoded by the escalating
      count reader: [FF, c0] is taken as a two-byte count when c0 != 0xFF,
      which is too small; otherwise c1 c2 00 and the following byte are taken
      as a four-byte count, which is too small when that byte is 0 and too
      large when it is not. */
  lemma EscapedCountMisread(data: seq<byte>, m: nat, count: nat)
    requires 0xFFFF <= count < 0xFF_FFFF
    requires m + 6 <= |data| && data[m..m + 6] == LengthHeader(count)
    ensures DecodeUtf16Count(data, m).0.count != 2 * count
  {
    Pow256Values();
    var f := ToLE(count, 4);
    assert LengthHeader(count) == [0xFF, 0xFF] + f;
    var c0, hi := f[0], f[1..];
    assert f == [c0] + hi;
    assert count == c0 + 256 * FromLE(hi);
    assert data[m] == 0xFF && data[m + 1] == 0xFF && data[m + 2] == c0;
    assert Take(data, m, 1) == [0xFF];
    var two := Take(data, m + 1, 2);
    assert two == [0xFF, c0];
    assert FromLE(two) == 0xFF + 256 * c0;
    if c0 == 0xFF {
      var four := Take(data, m + 3, 4);
      var beyond := Take(data, m + 6, 1);
      assert four == hi + beyond by {
        assert data[m + 3..m + 6] == hi;
      }
      FromLEAppend(hi, beyond);
      if FromLE(beyond) == 0 {
        assert FromLE(four) < count;
      } else {
        assert FromLE(four) >= 0x100_0000;
      }
    }
  }

  /** A concrete case: a legacy string of 0x10000 bytes gets the header
      FF FF 00 00 01 00, which reads back as a count of 0xFF after three
      bytes. */
  lemma ThirdTierExample(rest: seq<byte>, preferred: string)
    ensures LengthHeader(0x1_0000) == [0xFF, 0xFF, 0x00, 0x00, 0x01, 0x00]
    ensures DecodeHeader(LengthHeader(0x1_0000) + rest, 0, preferred) == (Header(0xFF, preferred), 3)
  {
    Pow256Values();
    var h := LengthHeader(0x1_0000);
    assert h == [0xFF, 0xFF, 0x00, 0x00, 0x01, 0x00];
    var data := h + rest;
    assert Take(data, 0, 1) == [0xFF];
    assert Take(data, 1, 2) == [0xFF, 0x00];
    assert FromLE([0xFF, 0x00]) == 0xFF;
  }

  /** A legacy count of 0xFFFE is written FF FE FF, the UTF-16 marker: the
      reader then reports UTF-16 and takes the following bytes as the
      character count. */
  lemma LegacyFFFEMisread(rest: seq<byte>, preferred: string)
    ensures LengthHeader(0xFFFE) == Marker
    ensures DecodeHeader(LengthHeader(0xFFFE) + rest, 0, preferred) == DecodeUtf16Count(Marker + rest, 3)
    ensures DecodeHeader(LengthHeader(0xFFFE) + rest, 0, preferred).0.encoding == Utf16Le
  {
    Pow256Values();
    assert ToLE(0xFFFE, 2) == [0xFE, 0xFF];
    var data := Marker + rest;
    assert Take(data, 0, 1) == [0xFF];
    assert Take(data, 1, 2) == [0xFE, 0xFF];
  }

  // ---------------------------------------------------------------------
  // A writer that agrees with the reader

  /** A length header that the reader decodes for every count that fits in
      32 bits: the two-byte tier stops below 0xFFFE, and every larger count
      takes the FF FF FF escape before its four-byte field. */
  function CorrectedLengthHeader(count: nat): (h: seq<byte>)
    requires count < Pow256(4)
    ensures 1 <= |h| <= 7
  {
    if count < 0xFF then ToLE(count, 1)
    else if count < 0xFFFE then [0xFF] + ToLE(count, 2)
    else [0xFF, 0xFF, 0xFF] + ToLE(count, 4)
  }

  /** With the corrected header, write-then-read recovers every count below
      2^32 and the encoding, with or without the UTF-16 marker. */
  lemma CorrectedHeaderRoundTrip(count: nat, utf16: bool, rest: seq<byte>, preferred: string)
    requires count < 0x1_0000_0000
    ensures var header := (if utf16 then Marker else []) + CorrectedLengthHeader(count);
      DecodeHeader(header + rest, 0, preferred)
        == (Header(if utf16 then 2 * count else count, if utf16 then Utf16Le else preferred), |header|)
  {
    Pow256Values();
    var h := CorrectedLengthHeader(count);
    var marker: seq<byte> := if utf16 then Marker else [];
    var data := marker + h + rest;
    var m := |marker|;
    assert data[m..m + |h|] == h;
    if utf16 {
      assert data[..3] == Marker;
      AfterMarker(data, preferred);
    }
    if count < 0xFFFE {
      assert h == LengthHeader(count);
      DecodeCountTiers(data, m, count, preferred, utf16);
    } else {
      FourByteTier(data, m, count, preferred, utf16);
    }
  }
}
