/** Generating an archive: the records first, then the bytes into an array of exactly their length. */
module ZipWriter {
  import opened Bits
  import opened ZipFormat

  /** The records of one file. */
  datatype ZipPart = ZipPart(fileRecord: seq<byte>, dirRecord: seq<byte>, content: seq<byte>)

  /** The bytes of a number, lowest first. */
  method ToHex(dec0: int, bytes: nat) returns (hex: seq<byte>)
    ensures hex == DecToHex(dec0, bytes)
  {
    hex := [];
    var dec := Word(dec0);
    var i := 0;
    while i < bytes
      invariant 0 <= i <= bytes && 0 <= dec
      invariant DecToHex(dec0, bytes) == hex + LittleEndian(dec, bytes - i)
    {
      hex := hex + [dec % 256];
      dec := dec / 256;
      i := i + 1;
    }
  }

  /** The header that the local and the central record share. */
  method MakeHeader(p: Part) returns (header: seq<byte>)
    ensures header == Header(p)
  {
    hide DecToHex;
    var time := ToHex(p.time, 2);
    var date := ToHex(p.date, 2);
    var crc := ToHex(p.crc, 4);
    var size := ToHex(|p.data|, 4);
    var nameLength := ToHex(|p.name|, 2);
    header := [0x0A, 0x00];
    header := header + (if p.utf8 then [0x00, 0x08] else [0x00, 0x00]);
    header := header + StoreMethod() + time + date + crc;
    header := header + size + size + nameLength + [0x00, 0x00];
  }

  method MakeCentralTail(p: Part, offset: nat) returns (tail: seq<byte>)
    ensures tail == CentralTail(p, offset)
  {
    hide DecToHex;
    var at := ToHex(offset, 4);
    var attributes: seq<byte> := if p.dir then [0x10, 0x00, 0x00, 0x00] else [0x00, 0x00, 0x00, 0x00];
    tail := [0x00, 0x00] + [0x00, 0x00] + [0x00, 0x00] + attributes + at + p.name;
  }

  method GenerateZipParts(p: Part, offset: nat) returns (part: ZipPart)
    ensures part == ZipPart(FileRecord(p), DirRecord(p, offset), p.data)
  {
    hide Header, CentralTail;
    var header := MakeHeader(p);
    var fileRecord := LocalSignature() + header + p.name;
    var tail := MakeCentralTail(p, offset);
    var dirRecord := CentralSignature() + [0x14, 0x00] + header + tail;
    part := ZipPart(fileRecord, dirRecord, p.data);
  }

  /** Writes into an array of a length given beforehand. */
  class Uint8ArrayWriter {
    var data: array<byte>
    var index: nat

    ghost predicate Valid()
      reads `data, `index
    {
      index <= data.Length
    }

    constructor (length: nat)
      ensures Valid() && fresh(data) && data.Length == length && index == 0
    {
      data := new byte[length](i => 0);
      index := 0;
    }

    /** Appends; the array must have room. */
    method Append(input: seq<byte>)
      requires Valid() && index + |input| <= data.Length
      modifies `index, data
      ensures Valid() && data == old(data) && index == old(index) + |input|
      ensures data[..index] == old(data[..index]) + input
    {
      var i := 0;
      while i < |input|
        invariant 0 <= i <= |input| && index == old(index) && data == old(data)
        invariant data[..index] == old(data[..index]) && data[index..index + i] == input[..i]
      {
        data[index + i] := input[i];
        i := i + 1;
      }
      assert input[..|input|] == input;
      assert data[..index + |input|] == data[..index] + data[index..index + |input|];
      index := index + |input|;
    }
  }

  /** The parts made for the first `n` files. */
  ghost predicate Made(ps: seq<Part>, parts: seq<ZipPart>) {
    |parts| <= |ps| && forall k :: 0 <= k < |parts| ==>
      parts[k] == ZipPart(FileRecord(ps[k]), DirRecord(ps[k], LocalOffset(ps, k)), ps[k].data)
  }

  lemma {:induction false} MadeNext(ps: seq<Part>, parts: seq<ZipPart>, part: ZipPart)
    requires Made(ps, parts) && |parts| < |ps|
    requires var p := ps[|parts|]; part == ZipPart(FileRecord(p), DirRecord(p, LocalOffset(ps, |parts|)), p.data)
    ensures Made(ps, parts + [part])
  {
    hide FileRecord, DirRecord, LocalOffset;
  }

  lemma {:induction false} MadeAt(ps: seq<Part>, parts: seq<ZipPart>, k: nat)
    requires Made(ps, parts) && k < |parts|
    ensures |parts| <= |ps| && parts[k].fileRecord == FileRecord(ps[k]) && parts[k].content == ps[k].data
    ensures parts[k].dirRecord == DirRecord(ps[k], LocalOffset(ps, k))
  {
    hide FileRecord, DirRecord, LocalOffset;
  }

  lemma {:induction false} CentralsFrom(ps: seq<Part>, k: nat)
    requires k < |ps|
    ensures Centrals(ps[k..], LocalOffset(ps, k))
         == DirRecord(ps[k], LocalOffset(ps, k)) + Centrals(ps[k + 1..], LocalOffset(ps, k + 1))
  {
    hide DirRecord, Local, Centrals, LocalOffset;
    CentralsSplit(ps, LocalOffset(ps, k), k);
    LocalOffsetNext(ps, k);
  }

  lemma {:induction false} LocalsFrom(ps: seq<Part>, k: nat)
    requires k < |ps|
    ensures Locals(ps[k..]) == FileRecord(ps[k]) + (ps[k].data + Locals(ps[k + 1..]))
  {
    assert ps[k..][0] == ps[k] && ps[k..][1..] == ps[k + 1..];
    assert Local(ps[k]) + Locals(ps[k + 1..]) == FileRecord(ps[k]) + (ps[k].data + Locals(ps[k + 1..]));
  }

  lemma {:induction false} AppendNext(done: seq<byte>, next: seq<byte>, rest: seq<byte>)
    ensures done + (next + rest) == (done + next) + rest
  {
  }

  /** The records of all files, and the lengths of both kinds of them. */
  method MakeParts(ps: seq<Part>) returns (zipData: seq<ZipPart>, localDirLength: nat, centralDirLength: nat)
    ensures Made(ps, zipData) && |zipData| == |ps|
    ensures localDirLength == |Locals(ps)| && centralDirLength == |Centrals(ps, 0)|
  {
    zipData, localDirLength, centralDirLength := [], 0, 0;
    var i := 0;
    assert LocalOffset(ps, 0) == 0;
    assert Made(ps, zipData);
    hide Made, Locals, DirRecord, FileRecord, Local, Centrals, LocalOffset;
    assert ps[0..] == ps;
    while i < |ps|
      invariant 0 <= i <= |ps| && |zipData| == i && Made(ps, zipData)
      invariant localDirLength == LocalOffset(ps, i)
      invariant centralDirLength + |Centrals(ps[i..], LocalOffset(ps, i))| == |Centrals(ps, 0)|
    {
      CentralsFrom(ps, i);
      LocalOffsetNext(ps, i);
      LocalLength(ps[i]);
      var zipPart := GenerateZipParts(ps[i], localDirLength);
      localDirLength := localDirLength + |zipPart.fileRecord| + |ps[i].data|;
      centralDirLength := centralDirLength + |zipPart.dirRecord|;
      MadeNext(ps, zipData, zipPart);
      zipData := zipData + [zipPart];
      i := i + 1;
    }
    LocalOffsetWithin(ps, |ps|);
    NoCentrals(ps, i);
  }

  lemma {:induction false} LocalLength(p: Part)
    ensures |Local(p)| == |FileRecord(p)| + |p.data|
  {
  }

  method MakeDirEnd(count: nat, centralDirLength: nat, localDirLength: nat) returns (dirEnd: seq<byte>)
    ensures dirEnd == DirEnd(count, centralDirLength, localDirLength)
  {
    hide DecToHex;
    var countHex := ToHex(count, 2);
    var sizeHex := ToHex(centralDirLength, 4);
    var offsetHex := ToHex(localDirLength, 4);
    dirEnd := EndSignature() + [0x00, 0x00] + [0x00, 0x00] + countHex + countHex + sizeHex + offsetHex + [0x00, 0x00];
  }

  /** Generates the archive; the length computed beforehand is exactly the number of bytes written. */
  method Generate(ps: seq<Part>) returns (zip: seq<byte>)
    ensures zip == Archive(ps)
  {
    hide Made;
    var zipData, localDirLength, centralDirLength := MakeParts(ps);
    var dirEnd := MakeDirEnd(|zipData|, centralDirLength, localDirLength);
    PartsMakeAll(ps, zipData);
    zip := WriteParts(zipData, dirEnd, localDirLength + centralDirLength + |dirEnd|);
    hide Locals, Centrals, DirEnd, FileBytes, DirBytes, Archive;
    ArchiveIs(ps, dirEnd);
  }

  method WriteParts(zipData: seq<ZipPart>, dirEnd: seq<byte>, length: nat) returns (zip: seq<byte>)
    requires length == |FileBytes(zipData)| + |DirBytes(zipData)| + |dirEnd|
    ensures zip == (FileBytes(zipData) + DirBytes(zipData)) + dirEnd
  {
    hide FileBytes, DirBytes;
    var writer := new Uint8ArrayWriter(length);
    assert writer.data[..writer.index] == [];
    WriteLocals(writer, zipData);
    WriteCentrals(writer, zipData);
    writer.Append(dirEnd);
    assert writer.data[..writer.index] == writer.data[..];
    zip := writer.data[..];
  }

  lemma {:induction false} PartsMakeAll(ps: seq<Part>, parts: seq<ZipPart>)
    requires Made(ps, parts) && |parts| == |ps|
    ensures FileBytes(parts) == Locals(ps) && DirBytes(parts) == Centrals(ps, 0)
  {
    PartsMake(ps, parts, 0);
    assert parts[0..] == parts && ps[0..] == ps && LocalOffset(ps, 0) == 0;
  }

  lemma {:induction false} ArchiveIs(ps: seq<Part>, dirEnd: seq<byte>)
    requires dirEnd == DirEnd(|ps|, |Centrals(ps, 0)|, |Locals(ps)|)
    ensures (Locals(ps) + Centrals(ps, 0)) + dirEnd == Archive(ps)
  {
  }

  /** The bytes that the first loop of the generator writes, and those of the second. */
  function FileBytes(parts: seq<ZipPart>): seq<byte> {
    if parts == [] then [] else parts[0].fileRecord + (parts[0].content + FileBytes(parts[1..]))
  }

  function DirBytes(parts: seq<ZipPart>): seq<byte> {
    if parts == [] then [] else parts[0].dirRecord + DirBytes(parts[1..])
  }

  lemma {:induction false} PartsMake(ps: seq<Part>, parts: seq<ZipPart>, k: nat)
    requires Made(ps, parts) && |parts| == |ps| && k <= |ps|
    ensures FileBytes(parts[k..]) == Locals(ps[k..])
    ensures DirBytes(parts[k..]) == Centrals(ps[k..], LocalOffset(ps, k))
    decreases |ps| - k
  {
    if k == |ps| {
      NoCentrals(ps, k);
    } else {
      PartsMake(ps, parts, k + 1);
      MadeAt(ps, parts, k);
      hide Locals, Centrals, FileRecord, DirRecord, LocalOffset, Made;
      LocalsFrom(ps, k);
      CentralsFrom(ps, k);
      assert parts[k..][0] == parts[k] && parts[k..][1..] == parts[k + 1..];
    }
  }

  method WriteLocals(writer: Uint8ArrayWriter, zipData: seq<ZipPart>)
    requires writer.Valid() && writer.index + |FileBytes(zipData)| <= writer.data.Length
    modifies writer`index, writer.data
    ensures writer.Valid() && writer.data == old(writer.data)
    ensures writer.data[..writer.index] == old(writer.data[..writer.index]) + FileBytes(zipData)
  {
    var i := 0;
    assert zipData[0..] == zipData;
    ghost var target, goal := writer.data, writer.data[..writer.index] + FileBytes(zipData);
    while i < |zipData|
      invariant 0 <= i <= |zipData| && writer.Valid() && writer.data == target
      invariant writer.data[..writer.index] + FileBytes(zipData[i..]) == goal
    {
      ghost var done, rest := writer.data[..writer.index], FileBytes(zipData[i + 1..]);
      assert zipData[i..][0] == zipData[i] && zipData[i..][1..] == zipData[i + 1..];
      AppendNext(done, zipData[i].fileRecord, zipData[i].content + rest);
      AppendNext(done + zipData[i].fileRecord, zipData[i].content, rest);
      LengthOf(done, FileBytes(zipData[i..]), goal);
      writer.Append(zipData[i].fileRecord);
      writer.Append(zipData[i].content);
      i := i + 1;
    }
  }

  lemma {:induction false} LengthOf(a: seq<byte>, b: seq<byte>, c: seq<byte>)
    requires a + b == c
    ensures |a| + |b| == |c|
  {
  }

  method WriteCentrals(writer: Uint8ArrayWriter, zipData: seq<ZipPart>)
    requires writer.Valid() && writer.index + |DirBytes(zipData)| <= writer.data.Length
    modifies writer`index, writer.data
    ensures writer.Valid() && writer.data == old(writer.data)
    ensures writer.data[..writer.index] == old(writer.data[..writer.index]) + DirBytes(zipData)
  {
    var i := 0;
    assert zipData[0..] == zipData;
    ghost var target, goal := writer.data, writer.data[..writer.index] + DirBytes(zipData);
    while i < |zipData|
      invariant 0 <= i <= |zipData| && writer.Valid() && writer.data == target
      invariant writer.data[..writer.index] + DirBytes(zipData[i..]) == goal
    {
      ghost var done := writer.data[..writer.index];
      assert zipData[i..][0] == zipData[i] && zipData[i..][1..] == zipData[i + 1..];
      AppendNext(done, zipData[i].dirRecord, DirBytes(zipData[i + 1..]));
      LengthOf(done, DirBytes(zipData[i..]), goal);
      writer.Append(zipData[i].dirRecord);
      i := i + 1;
    }
  }

  lemma {:induction false} NoCentrals(ps: seq<Part>, i: nat)
    requires i == |ps|
    ensures Centrals(ps[i..], LocalOffset(ps, i)) == []
  {
  }
}
