/** The reduced CArchive of pycarchive/core.py: the same read-mode handle,
    whose read knows a single type, uint16. Its mode enumeration has the same
    two members as the full module's, so Archive.Mode stands for it. */
module ArchiveCore {
  import opened LittleEndian
  import Archive

  /** The logical types of core.py. */
  datatype Type = Unknown | UInt16

  /** The type of the full module that each type of core.py stands for. */
  function Full(t: Type): Archive.Type
  {
    match t
    case Unknown => Archive.Unknown
    case UInt16 => Archive.UInt16
  }

  /** `read(t)` on a handle in mode `mode` whose stream holds `data` and is
      positioned at `pos`: the result and the position after the call. */
  function ReadSpec(mode: Archive.Mode, data: seq<byte>, pos: nat, t: Type): (r: (Archive.Result<int>, nat))
    requires pos <= |data|
    ensures pos <= r.1 <= |data|
  {
    if mode != Archive.Reading then (Archive.Err(Archive.NotInReadMode), pos)
    else match t
      case UInt16 =>
        var bs := Archive.Take(data, pos, 2);
        (Archive.Ok(FromLE(bs)), pos + |bs|)
      case Unknown => (Archive.Err(Archive.UnknownType), pos)
  }

  /** A CArchive handle of core.py over a stream holding `data`, with cursor `pos`. */
  class CArchive {
    const mode: Archive.Mode
    var data: seq<byte>
    var pos: nat

    ghost predicate Valid()
      reads this
    {
      pos <= |data|
    }

    /** `CArchive(file, mode)` over a stream holding `file`, at its start. */
    constructor (file: seq<byte>, mode: Archive.Mode)
      ensures Valid() && this.mode == mode && data == file && pos == 0
    {
      this.mode := mode;
      data := file;
      pos := 0;
    }

    /** `read(type)`: only the cursor moves. */
    method Read(t: Type) returns (r: Archive.Result<int>)
      requires Valid()
      modifies this`pos
      ensures Valid()
      ensures (r, pos) == ReadSpec(mode, data, old(pos), t)
    {
      if mode != Archive.Reading {
        return Archive.Err(Archive.NotInReadMode);
      }
      if t == UInt16 {
        var bs := Archive.Take(data, pos, 2);
        pos := pos + |bs|;
        return Archive.Ok(FromLE(bs));
      }
      return Archive.Err(Archive.UnknownType);
    }
  }

  /** core.py's read is the full module's read dispatch restricted to uint16
      (and unknown): the same cursor movement, the same value, the same errors. */
  lemma RestrictsFullRead(mode: Archive.Mode, data: seq<byte>, pos: nat, t: Type, preferred: string)
    requires pos <= |data|
    ensures var (r, p) := ReadSpec(mode, data, pos, t);
      var (full, q) := Archive.ReadSpec(mode, data, pos, Full(t), preferred);
      p == q && (r.Ok? <==> full.Ok?) &&
      (r.Ok? ==> full.value == Archive.IntValue(r.value)) &&
      (r.Err? ==> full.error == r.error)
  {
  }

  /** A read on a handle that is not in read mode fails with the cursor unmoved. */
  lemma ReadNeedsReadMode(mode: Archive.Mode, data: seq<byte>, pos: nat, t: Type)
    requires pos <= |data| && mode != Archive.Reading
    ensures ReadSpec(mode, data, pos, t) == (Archive.Err(Archive.NotInReadMode), pos)
  {
  }

  /** Any type but uint16 is an unknown type. */
  lemma UnknownTypeRejected(data: seq<byte>, pos: nat)
    requires pos <= |data|
    ensures ReadSpec(Archive.Reading, data, pos, Unknown) == (Archive.Err(Archive.UnknownType), pos)
  {
  }

  /** A uint16 read with two bytes left consumes them and returns
      b0 + 256 * b1, a value below 65536. With fewer left it does not fail:
      it decodes what remains (0 at the end of the stream) and leaves the
      cursor at the end. */
  lemma ReadUInt16(data: seq<byte>, pos: nat)
    requires pos <= |data|
    ensures var (r, p) := ReadSpec(Archive.Reading, data, pos, UInt16);
      r.Ok? && 0 <= r.value < 0x1_0000 &&
      (pos + 2 <= |data| ==> r.value == data[pos] as int + 256 * (data[pos + 1] as int) && p == pos + 2) &&
      (pos + 1 == |data| ==> r.value == data[pos] && p == |data|) &&
      (pos == |data| ==> r.value == 0 && p == pos)
  {
    Pow256Values();
    if pos + 2 <= |data| {
      var bs := data[pos..pos + 2];
      assert bs == [data[pos], data[pos + 1]];
      assert FromLE(bs) == data[pos] + 256 * FromLE(bs[1..]);
    } else if pos + 1 == |data| {
      assert data[pos..] == [data[pos]];
    }
  }

  /** Two successive uint16 reads return consecutive two-byte groups. */
  lemma SuccessiveReads(data: seq<byte>, pos: nat)
    requires pos + 4 <= |data|
    ensures var (r1, p1) := ReadSpec(Archive.Reading, data, pos, UInt16);
      var (r2, p2) := ReadSpec(Archive.Reading, data, p1, UInt16);
      p1 == pos + 2 && p2 == pos + 4 &&
      r1 == Archive.Ok(FromLE(data[pos..pos + 2])) && r2 == Archive.Ok(FromLE(data[pos + 2..pos + 4]))
  {
  }

  /** The handle reading the stream 01 00 as uint16 yields 1. */
  method ReadsOne() returns (r: Archive.Result<int>)
    ensures r == Archive.Ok(1)
  {
    var data: seq<byte> := [0x01, 0x00];
    var ar := new CArchive(data, Archive.Reading);
    assert Archive.Take(data, 0, 2) == data;
    assert FromLE(data) == 1;
    r := ar.Read(UInt16);
  }
}
