/** The CArchive codec of pycarchive/__main__.py: a handle over a byte stream,
    fixed at construction to read or to write, that decodes and encodes
    fixed-width integers, floats and length-prefixed strings in MFC's
    CArchive layout.

    The stream is a byte sequence with a cursor. The functions ReadSpec,
    DecodeHeader and WriteSpec say, in one step, what a call does to the
    stream; the methods of class CArchive do it call by call, as the source
    does, and are proved to agree with them. */
module Archive {
  import opened LittleEndian

  /** CArchiveMode: a handle either reads or writes, never both. */
  datatype Mode = Reading | Writing

  /** The logical types the read and write dispatch recognises. */
  datatype Type = Unknown | UInt16 | UInt32 | UInt64 | Int16 | Int32 | Int64 | Float | Double | String

  /** The exceptions a call can raise. */
  datatype Error =
    | NotInReadMode    // "CArchive is not in read mode"
    | NotInWriteMode   // "CArchive is not in write mode"
    | UnknownType      // "Unknown type"
    | OverflowError    // int.to_bytes: the value does not fit the field
    | StructError      // struct.unpack: fewer bytes than the float format needs
    | WrongValueKind   // the value given to write has no conversion for the type
    | EncodeError      // str.encode failed for the requested encoding

  datatype Result<T> = Ok(value: T) | Err(error: Error)

  datatype Option<T> = None | Some(value: T)

  /** A character of a string value. Strings are sequences of Basic
      Multilingual Plane code points that are not surrogates, so that one
      character is exactly one UTF-16 code unit. */
  type Bmp = u: int | 0 <= u < 0xD800 || 0xE000 <= u < 0x1_0000

  /** Values passed to and returned by the handle. Floats are carried as their
      native-order byte image (their IEEE 754 meaning is not modelled); a
      string read returns its undecoded payload bytes together with the name
      of the encoding that decodes them. */
  datatype Value =
    | IntValue(i: int)
    | FloatImage(image: seq<byte>)
    | Text(units: seq<Bmp>)
    | Encoded(encoding: string, payload: seq<byte>)

  /** The decoded string length header: how many payload bytes follow and
      which encoding they are in. */
  datatype Header = Header(count: nat, encoding: string)

  /** The encoding name the reader reports for UTF-16 strings. */
  const Utf16Le: string := "utf-16-le"

  /** The three bytes that announce a UTF-16 string. */
  const Marker: seq<byte> := [0xFF, 0xFE, 0xFF]

  /** The two spellings for which write emits the UTF-16 marker. */
  predicate IsUtf16LeName(encoding: string)
  {
    encoding == "utf-16-le" || encoding == "utf-16le"
  }

  predicate IsInteger(t: Type)
  {
    t.UInt16? || t.UInt32? || t.UInt64? || t.Int16? || t.Int32? || t.Int64?
  }

  predicate IsSigned(t: Type)
  {
    t.Int16? || t.Int32? || t.Int64?
  }

  /** Field width in bytes of the fixed-width types. */
  function Width(t: Type): (n: nat)
    requires IsInteger(t) || t == Float || t == Double
    ensures n == 2 || n == 4 || n == 8
  {
    match t
    case UInt16 => 2
    case Int16 => 2
    case UInt32 => 4
    case Int32 => 4
    case Float => 4
    case UInt64 => 8
    case Int64 => 8
    case Double => 8
  }

  /** The values an integer type can hold. */
  predicate InRange(t: Type, i: int)
    requires IsInteger(t)
  {
    if IsSigned(t) then -Half(Width(t)) <= i < Half(Width(t)) else 0 <= i < Pow256(Width(t))
  }

  /** `file.read(n)` on a byte stream positioned at `pos`: at most n bytes,
      fewer when the stream ends first. */
  function Take(data: seq<byte>, pos: nat, n: nat): (bs: seq<byte>)
    requires pos <= |data|
    ensures |bs| <= n && pos + |bs| <= |data|
    ensures |bs| == n || pos + |bs| == |data|
  {
    if pos + n <= |data| then data[pos..pos + n] else data[pos..]
  }

  /** `int.from_bytes` with the signedness of an integer type. */
  function IntegerOf(t: Type, bs: seq<byte>): int
  {
    if IsSigned(t) then FromLESigned(bs) else FromLE(bs)
  }

  /** `int.to_bytes(Width(t), "little", signed=IsSigned(t))`; None where Python
      raises OverflowError. */
  function EncodeInt(t: Type, i: int): (r: Option<seq<byte>>)
    requires IsInteger(t)
    ensures r.Some? <==> InRange(t, i)
    ensures r.Some? ==> |r.value| == Width(t) && IntegerOf(t, r.value) == i
  {
    if !InRange(t, i) then None
    else if IsSigned(t) then Some(ToLESigned(i, Width(t)))
    else Some(ToLE(i, Width(t)))
  }

  /** UTF-16LE serialisation of code units: two bytes per unit, low byte first. */
  function Utf16LeBytes(units: seq<Bmp>): (bs: seq<byte>)
    ensures |bs| == 2 * |units|
  {
    if units == [] then [] else ToLE(units[0], 2) + Utf16LeBytes(units[1..])
  }

  /** `bs.decode("utf-16-le")` as code units; None where an odd trailing byte
      makes Python raise UnicodeDecodeError. */
  function Utf16LeUnits(bs: seq<byte>): (r: Option<seq<int>>)
    ensures r.Some? <==> |bs| % 2 == 0
    ensures r.Some? ==> |r.value| == |bs| / 2
  {
    if bs == [] then Some([])
    else if |bs| == 1 then None
    else match Utf16LeUnits(bs[2..])
      case None => None
      case Some(rest) => Some([FromLE(bs[..2])] + rest)
  }

  /** `value.encode(encoding)`: UTF-16LE for the two recognised names; any other
      name is handled by the supplied `legacy` codec, where None stands for an
      exception raised by the encoder. */
  function Encode(units: seq<Bmp>, encoding: string, legacy: seq<Bmp> -> Option<seq<byte>>): (r: Option<seq<byte>>)
    ensures IsUtf16LeName(encoding) ==> r.Some? && |r.value| == 2 * |units|
    ensures !IsUtf16LeName(encoding) ==> r == legacy(units)
  {
    if IsUtf16LeName(encoding) then Some(Utf16LeBytes(units)) else legacy(units)
  }

  /** The string length header that write emits after the optional marker:
      one byte below 0xFF, 0xFF and two bytes below 0xFFFF, 0xFF 0xFF and four
      bytes below 0xFFFFFF, and 0xFF 0xFF 0xFF and four bytes above. */
  function LengthHeader(count: nat): (h: seq<byte>)
    requires count < Pow256(4)
    ensures 1 <= |h| <= 7
    ensures |h| == 1 <==> count < 0xFF
    ensures |h| > 1 ==> h[0] == 0xFF
  {
    if count < 0xFF then ToLE(count, 1)
    else if count < 0xFFFF then [0xFF] + ToLE(count, 2)
    else if count < 0xFF_FFFF then [0xFF, 0xFF] + ToLE(count, 4)
    else [0xFF, 0xFF, 0xFF] + ToLE(count, 4)
  }

  /** `__read_string_header` on a read-mode stream positioned at `pos`: the
      header it decodes with the position after it. `preferred` is the
      process's preferred encoding, reported for strings without the marker. */
  function DecodeHeader(data: seq<byte>, pos: nat, preferred: string): (r: (Header, nat))
    requires pos <= |data|
    ensures pos <= r.1 <= |data| && r.1 <= pos + 10
    ensures pos < |data| ==> pos < r.1
  {
    var b1 := Take(data, pos, 1);
    if b1 != [0xFF] then (Header(FromLE(b1), preferred), pos + |b1|)
    else DecodeEscaped(data, pos + 1, preferred)
  }

  /** What follows a first byte 0xFF: the UTF-16 marker's second half, a
      two-byte count, or 0xFF 0xFF and a four-byte count. */
  function DecodeEscaped(data: seq<byte>, pos: nat, preferred: string): (r: (Header, nat))
    requires pos <= |data|
    ensures pos <= r.1 <= |data| && r.1 <= pos + 9
  {
    var b2 := Take(data, pos, 2);
    var p2 := pos + |b2|;
    if b2 != [0xFE, 0xFF] then
      if b2 != [0xFF, 0xFF] then (Header(FromLE(b2), preferred), p2)
      else
        var b4 := Take(data, p2, 4);
        (Header(FromLE(b4), preferred), p2 + |b4|)
    else DecodeUtf16Count(data, p2)
  }

  /** The character count that follows the UTF-16 marker, escalating from one
      to two to four bytes on 0xFF and 0xFF 0xFF, converted to a byte count. */
  function DecodeUtf16Count(data: seq<byte>, pos: nat): (r: (Header, nat))
    requires pos <= |data|
    ensures pos <= r.1 <= |data| && r.1 <= pos + 7
    ensures pos < |data| ==> pos < r.1
    ensures r.0.encoding == Utf16Le && r.0.count % 2 == 0
  {
    var c1 := Take(data, pos, 1);
    var q1 := pos + |c1|;
    if c1 != [0xFF] then (Header(FromLE(c1) * 2, Utf16Le), q1)
    else
      var c2 := Take(data, q1, 2);
      var q2 := q1 + |c2|;
      if c2 != [0xFF, 0xFF] then (Header(FromLE(c2) * 2, Utf16Le), q2)
      else
        var c4 := Take(data, q2, 4);
        (Header(FromLE(c4) * 2, Utf16Le), q2 + |c4|)
  }

  /** `read(t)` on a handle in mode `mode` whose stream holds `data` and is
      positioned at `pos`: the result and the position after the call. */
  function ReadSpec(mode: Mode, data: seq<byte>, pos: nat, t: Type, preferred: string): (r: (Result<Value>, nat))
    requires pos <= |data|
    ensures pos <= r.1 <= |data|
  {
    if mode != Reading then (Err(NotInReadMode), pos)
    else if IsInteger(t) then
      var bs := Take(data, pos, Width(t));
      (Ok(IntValue(IntegerOf(t, bs))), pos + |bs|)
    else if t == Float || t == Double then
      var bs := Take(data, pos, Width(t));
      (if |bs| == Width(t) then Ok(FloatImage(bs)) else Err(StructError), pos + |bs|)
    else if t == String then
      var (h, p) := DecodeHeader(data, pos, preferred);
      var payload := Take(data, p, h.count);
      (Ok(Encoded(h.encoding, payload)), p + |payload|)
    else (Err(UnknownType), pos)
  }

  /** `write(t, v, encoding)` on a handle in mode `mode`: the result and the
      bytes appended to the stream (including those appended before an
      exception). `legacy` encodes text for encodings other than UTF-16LE. */
  function WriteSpec(mode: Mode, t: Type, v: Value, encoding: string,
                     legacy: seq<Bmp> -> Option<seq<byte>>): (r: (Result<nat>, seq<byte>))
    ensures r.0.Ok? ==> r.0.value <= |r.1|
  {
    if mode != Writing then (Err(NotInWriteMode), [])
    else if IsInteger(t) then
      if !v.IntValue? then (Err(WrongValueKind), [])
      else match EncodeInt(t, v.i)
        case None => (Err(OverflowError), [])
        case Some(bs) => (Ok(|bs|), bs)
    else if t == Float || t == Double then
      if v.FloatImage? && |v.image| == Width(t) then (Ok(|v.image|), v.image)
      else (Err(WrongValueKind), [])
    else if t == String then
      if !v.Text? then (Err(WrongValueKind), []) else WriteStringSpec(v.units, encoding, legacy)
    else (Err(UnknownType), [])
  }

  /** The string branch of write: the optional UTF-16 marker, the length
      header, then the encoded text; the result is the text's byte length. */
  function WriteStringSpec(units: seq<Bmp>, encoding: string,
                           legacy: seq<Bmp> -> Option<seq<byte>>): (r: (Result<nat>, seq<byte>))
    ensures r.0 == Err(EncodeError) <==> Encode(units, encoding, legacy).None?
    ensures r.0.Ok? ==> Encode(units, encoding, legacy).Some? && r.0.value == |Encode(units, encoding, legacy).value|
    ensures r.0.Ok? ==> r.0.value <= |r.1| && r.1[|r.1| - r.0.value..] == Encode(units, encoding, legacy).value
    ensures r.0.Err? ==> r.0.error == EncodeError || r.0.error == OverflowError
  {
    match Encode(units, encoding, legacy)
    case None => (Err(EncodeError), [])
    case Some(text) =>
      var utf16 := IsUtf16LeName(encoding);
      var count := if utf16 then |units| else |text|;
      var marker := if utf16 then Marker else [];
      if count < Pow256(4) then (Ok(|text|), marker + LengthHeader(count) + text)
      else (Err(OverflowError), marker + [0xFF, 0xFF, 0xFF])
  }

  /** What WriteStringSpec gives once the text has been encoded. */
  lemma WriteStringSpecShape(units: seq<Bmp>, encoding: string,
                             legacy: seq<Bmp> -> Option<seq<byte>>, text: seq<byte>)
    requires Encode(units, encoding, legacy) == Some(text)
    ensures var utf16 := IsUtf16LeName(encoding);
      var count := if utf16 then |units| else |text|;
      var marker := if utf16 then Marker else [];
      WriteStringSpec(units, encoding, legacy)
        == if count < Pow256(4) then (Result<nat>.Ok(|text|), marker + LengthHeader(count) + text)
           else (Err(OverflowError), marker + [0xFF, 0xFF, 0xFF])
  {
  }

  lemma Concat4(a: seq<byte>, b: seq<byte>, c: seq<byte>, d: seq<byte>)
    ensures a + b + c + d == a + (b + c + d)
  {
  }

  /** A CArchive handle. `data` is the stream's content and `pos` its cursor;
      a write-mode handle's stream is positioned at its end, so writes append. */
  class CArchive {
    const mode: Mode
    var data: seq<byte>
    var pos: nat

    ghost predicate Valid()
      reads this
    {
      pos <= |data| && (mode == Writing ==> pos == |data|)
    }

    /** `CArchive(file, mode)` over a stream holding `file`. */
    constructor (file: seq<byte>, mode: Mode)
      ensures Valid() && this.mode == mode && data == file
      ensures pos == if mode == Reading then 0 else |file|
    {
      this.mode := mode;
      data := file;
      pos := if mode == Reading then 0 else |file|;
    }

    /** `self.file.read(n)`. */
    method ReadBytes(n: nat) returns (bs: seq<byte>)
      requires Valid()
      modifies this`pos
      ensures Valid()
      ensures bs == Take(data, old(pos), n) && pos == old(pos) + |bs|
    {
      bs := Take(data, pos, n);
      pos := pos + |bs|;
    }

    /** `self.file.write(bs)`: appends and returns the number of bytes written. */
    method WriteBytes(bs: seq<byte>) returns (written: nat)
      requires Valid() && mode == Writing
      modifies this`data, this`pos
      ensures Valid()
      ensures data == old(data) + bs && written == |bs|
    {
      data := data + bs;
      pos := |data|;
      written := |bs|;
    }

    /** `__read_string_header`. */
    method ReadStringHeader(preferred: string) returns (h: Header)
      requires Valid()
      modifies this`pos
      ensures Valid()
      ensures (h, pos) == DecodeHeader(data, old(pos), preferred)
    {
      ghost var p0 := pos;
      var count := ReadBytes(1);
      if count != [0xFF] {
        return Header(FromLE(count), preferred);
      }
      ghost var p1 := pos;
      assert DecodeHeader(data, p0, preferred) == DecodeEscaped(data, p1, preferred);
      count := ReadBytes(2);
      if count != [0xFE, 0xFF] {
        if count != [0xFF, 0xFF] {
          return Header(FromLE(count), preferred);
        }
        ghost var p2 := pos;
        count := ReadBytes(4);
        assert DecodeEscaped(data, p1, preferred) == (Header(FromLE(Take(data, p2, 4)), preferred), pos);
        return Header(FromLE(count), preferred);
      }
      h := ReadUtf16Count();
    }

    /** The UTF-16 branch of `__read_string_header`, after the marker. */
    method ReadUtf16Count() returns (h: Header)
      requires Valid()
      modifies this`pos
      ensures Valid()
      ensures (h, pos) == DecodeUtf16Count(data, old(pos))
    {
      var count := ReadBytes(1);
      if count != [0xFF] {
        return Header(FromLE(count) * 2, Utf16Le);
      }
      count := ReadBytes(2);
      if count != [0xFF, 0xFF] {
        return Header(FromLE(count) * 2, Utf16Le);
      }
      count := ReadBytes(4);
      return Header(FromLE(count) * 2, Utf16Le);
    }

    /** `read(variable_type)`; `preferred` stands for the process's preferred
        encoding. The stream content never changes; only the cursor moves. */
    method Read(t: Type, preferred: string) returns (r: Result<Value>)
      requires Valid()
      modifies this`pos
      ensures Valid()
      ensures (r, pos) == ReadSpec(mode, data, old(pos), t, preferred)
    {
      if mode != Reading {
        return Err(NotInReadMode);
      }
      if IsInteger(t) {
        var bs := ReadBytes(Width(t));
        return Ok(IntValue(IntegerOf(t, bs)));
      }
      if t == Float || t == Double {
        var bs := ReadBytes(Width(t));
        if |bs| != Width(t) {
          return Err(StructError);
        }
        return Ok(FloatImage(bs));
      }
      if t == String {
        r := ReadString(preferred);
        return;
      }
      return Err(UnknownType);
    }

    /** The string branch of `read` (pycarchive/__main__.py:86-88): the header,
        then as many payload bytes as it announces. */
    method ReadString(preferred: string) returns (r: Result<Value>)
      requires Valid() && mode == Reading
      modifies this`pos
      ensures Valid()
      ensures (r, pos) == ReadSpec(mode, data, old(pos), String, preferred)
    {
      var h := ReadStringHeader(preferred);
      var payload := ReadBytes(h.count);
      return Ok(Encoded(h.encoding, payload));
    }

    /** `write(variable_type, value, encoding)`. The stream grows by exactly the
        bytes WriteSpec names, also when the call fails part-way. */
    method Write(t: Type, v: Value, encoding: string, legacy: seq<Bmp> -> Option<seq<byte>>)
      returns (r: Result<nat>)
      requires Valid()
      modifies this`data, this`pos
      ensures Valid()
      ensures r == WriteSpec(mode, t, v, encoding, legacy).0
      ensures data == old(data) + WriteSpec(mode, t, v, encoding, legacy).1
      ensures mode != Writing ==> pos == old(pos)
    {
      if mode != Writing {
        return Err(NotInWriteMode);
      }
      if IsInteger(t) {
        if !v.IntValue? {
          return Err(WrongValueKind);
        }
        var bs := EncodeInt(t, v.i);
        if bs.None? {
          return Err(OverflowError);
        }
        var n := WriteBytes(bs.value);
        return Ok(n);
      }
      if t == Float || t == Double {
        if !(v.FloatImage? && |v.image| == Width(t)) {
          return Err(WrongValueKind);
        }
        var n := WriteBytes(v.image);
        return Ok(n);
      }
      if t == String {
        if !v.Text? {
          return Err(WrongValueKind);
        }
        r := WriteString(v.units, encoding, legacy);
        return;
      }
      return Err(UnknownType);
    }

    /** The string branch of `write` (pycarchive/__main__.py:157-176). */
    method WriteString(units: seq<Bmp>, encoding: string, legacy: seq<Bmp> -> Option<seq<byte>>)
      returns (r: Result<nat>)
      requires Valid() && mode == Writing
      modifies this`data, this`pos
      ensures Valid()
      ensures r == WriteStringSpec(units, encoding, legacy).0
      ensures data == old(data) + WriteStringSpec(units, encoding, legacy).1
    {
      var count := |units|;
      var text := Encode(units, encoding, legacy);
      if text.None? {
        return Err(EncodeError);
      }
      ghost var start := data;
      var utf16 := IsUtf16LeName(encoding);
      if utf16 {
        var _ := WriteBytes(Marker);
      } else {
        count := |text.value|;
      }
      ghost var marker: seq<byte> := if utf16 then Marker else [];
      assert data == start + marker;
      var fits := WriteLengthHeader(count);
      WriteStringSpecShape(units, encoding, legacy, text.value);
      if !fits {
        return Err(OverflowError);
      }
      ghost var header := LengthHeader(count);
      ghost var before := data;
      assert before == start + marker + header;
      var n := WriteBytes(text.value);
      assert data == before + text.value;
      Concat4(start, marker, header, text.value);
      return Ok(n);
    }

    /** The length-header tiers of the string branch of `write`
        (pycarchive/__main__.py:164-174). Returns false where `count.to_bytes(4, ...)` overflows,
        after the three 0xFF bytes have been written. */
    method WriteLengthHeader(count: nat) returns (fits: bool)
      requires Valid() && mode == Writing
      modifies this`data, this`pos
      ensures Valid()
      ensures fits == (count < Pow256(4))
      ensures data == old(data) + if fits then LengthHeader(count) else [0xFF, 0xFF, 0xFF]
    {
      Pow256Values();
      fits := true;
      if count < 0xFF {
        var _ := WriteBytes(ToLE(count, 1));
      } else if count < 0xFFFF {
        var _ := WriteBytes([0xFF]);
        var _ := WriteBytes(ToLE(count, 2));
      } else if count < 0xFF_FFFF {
        var _ := WriteBytes([0xFF, 0xFF]);
        var _ := WriteBytes(ToLE(count, 4));
      } else {
        var _ := WriteBytes([0xFF, 0xFF, 0xFF]);
        if count >= Pow256(4) {
          return false;
        }
        var _ := WriteBytes(ToLE(count, 4));
      }
    }
  }
}
