/** Reading an archive: from the end record to the central directory and from there to the files. */
module ZipReader {
  import opened Bits
  import opened Options
  import opened ZipFormat

  /** Conversion to a signed 32-bit number, as after a shift. */
  function ToInt32(x: int): int {
    var w := x % WORD;
    if w < 0x8000_0000 then w else w - WORD
  }

  lemma {:induction false} ToInt32Wraps(x: int)
    ensures -0x8000_0000 <= ToInt32(x) < 0x8000_0000 && (x - ToInt32(x)) % WORD == 0
  {
  }

  /** The number that `size` bytes at `pos` make, the lowest first, with the wrap of the shifts. */
  function IntAt(data: seq<byte>, pos: nat, size: nat): int
    requires pos + size <= |data|
    decreases size
  {
    if size == 0 then 0 else ToInt32(IntAt(data, pos + 1, size - 1) * 256) + data[pos]
  }

  /** `v` is written in full by `n` bytes. */
  predicate Fits(v: nat, n: nat) {
    if n == 0 then v == 0 else Fits(v / 256, n - 1)
  }

  lemma {:induction false} IntAtLittleEndian(data: seq<byte>, pos: nat, v: nat, n: nat)
    requires At(data, pos, LittleEndian(v, n)) && v < 0x8000_0000 && Fits(v, n)
    ensures IntAt(data, pos, n) == v
    decreases n
  {
    if n > 0 {
      AtSplit(data, pos, [v % 256], LittleEndian(v / 256, n - 1));
      IntAtLittleEndian(data, pos + 1, v / 256, n - 1);
      assert data[pos] == data[pos..pos + 1][0] == v % 256;
    }
  }

  lemma {:induction false} IntAt4(data: seq<byte>, pos: nat, v: nat)
    requires At(data, pos, DecToHex(v, 4)) && v < 0x8000_0000
    ensures pos + 4 <= |data| && IntAt(data, pos, 4) == v
  {
    assert Fits(v, 4) by {
      assert Fits(v / 256 / 256 / 256 / 256, 0) && Fits(v / 256 / 256 / 256, 1) && Fits(v / 256 / 256, 2);
    }
    IntAtLittleEndian(data, pos, v, 4);
  }

  lemma {:induction false} IntAt2(data: seq<byte>, pos: nat, v: nat)
    requires At(data, pos, DecToHex(v, 2)) && v < 0x1_0000
    ensures pos + 2 <= |data| && IntAt(data, pos, 2) == v
  {
    assert Fits(v, 2) by {
      assert Fits(v / 256 / 256, 0);
    }
    IntAtLittleEndian(data, pos, v, 2);
  }

  lemma {:induction false} IntOfTwo(data: seq<byte>, pos: nat, lo: byte, hi: byte)
    requires At(data, pos, [lo, hi])
    ensures pos + 2 <= |data| && IntAt(data, pos, 2) == lo + 256 * hi
  {
    assert data[pos] == data[pos..pos + 2][0] == lo && data[pos + 1] == data[pos..pos + 2][1] == hi;
    assert IntAt(data, pos + 2, 0) == 0 && IntAt(data, pos + 1, 1) == hi;
  }

  lemma {:induction false} IntAt2Range(data: seq<byte>, pos: nat)
    requires pos + 2 <= |data|
    ensures 0 <= IntAt(data, pos, 2) < 0x1_0000
  {
    assert data[pos..pos + 2] == [data[pos], data[pos + 1]];
    IntOfTwo(data, pos, data[pos], data[pos + 1]);
  }

  lemma {:induction false} SameFour(data: seq<byte>, i: nat, sig: seq<byte>)
    requires i + 4 <= |data| && |sig| == 4
    ensures At(data, i, sig) <==>
      data[i] == sig[0] && data[i + 1] == sig[1] && data[i + 2] == sig[2] && data[i + 3] == sig[3]
  {
    assert data[i..i + 4] == [data[i], data[i + 1], data[i + 2], data[i + 3]];
    assert sig == [sig[0], sig[1], sig[2], sig[3]];
  }

  // ---------------------------------------------------------------------------------------------
  // The reader

  class DataReader {
    const data: seq<byte>
    var index: nat

    ghost predicate Valid()
      reads this
    {
      index <= |data|
    }

    constructor (data: seq<byte>)
      ensures Valid() && this.data == data && index == 0
    {
      this.data := data;
      index := 0;
    }

    method SetIndex(newIndex: int) returns (r: Option<nat>)
      requires Valid()
      modifies this
      ensures Valid() && (r.Some? <==> 0 <= newIndex <= |data|)
      ensures index == if r.Some? then newIndex else old(index)
    {
      if |data| < newIndex || newIndex < 0 {
        return None;
      }
      index := newIndex;
      return Some(index);
    }

    method Skip(n: int) returns (r: Option<nat>)
      requires Valid()
      modifies this
      ensures Valid() && (r.Some? <==> 0 <= old(index) + n <= |data|)
      ensures index == if r.Some? then old(index) + n else old(index)
    {
      r := SetIndex(index + n);
    }

    method ReadInt(size: nat) returns (r: Option<int>)
      requires Valid()
      modifies this
      ensures Valid() && (r.Some? <==> old(index) + size <= |data|)
      ensures r.Some? ==> index == old(index) + size && r.value == IntAt(data, old(index), size)
      ensures r.Some? && size == 2 ==> 0 <= r.value < 0x1_0000
    {
      if |data| < index + size {
        return None;
      }
      var result := 0;
      var i := index + size - 1;
      while i >= index
        invariant index - 1 <= i < index + size && index == old(index)
        invariant result == IntAt(data, i + 1, index + size - 1 - i)
        decreases i
      {
        result := ToInt32(result * 256) + data[i];
        i := i - 1;
      }
      if size == 2 {
        IntAt2Range(data, index);
      }
      index := index + size;
      return Some(result);
    }

    /** A negative size reads nothing and moves back. */
    method ReadData(size: int) returns (r: Option<seq<byte>>)
      requires Valid()
      modifies this
      ensures Valid() && (r.Some? <==> 0 <= old(index) + size <= |data|)
      ensures r.Some? ==> index == old(index) + size
      ensures r.Some? && 0 <= size ==> r.value == data[old(index)..old(index) + size]
    {
      if |data| < index + size || index + size < 0 {
        return None;
      }
      r := Some(if size >= 0 then data[index..index + size] else []);
      index := index + size;
    }

    method LastIndexOfSignature(sig: seq<byte>) returns (last: int)
      requires |sig| == 4
      ensures -1 <= last && (last >= 0 ==> At(data, last, sig))
      ensures forall k :: last < k ==> !At(data, k, sig)
    {
      var i := |data| - 4;
      while i >= 0
        invariant -1 <= i || i == |data| - 4
        invariant forall k :: i < k ==> !At(data, k, sig)
        decreases i
      {
        if data[i] == sig[0] && data[i + 1] == sig[1] && data[i + 2] == sig[2] && data[i + 3] == sig[3] {
          SameFour(data, i, sig);
          return i;
        }
        SameFour(data, i, sig);
        i := i - 1;
      }
      return -1;
    }
  }

  // ---------------------------------------------------------------------------------------------
  // The end of the central directory

  /** The numbers of the end record. */
  datatype End = End(diskNumber: int, diskWithStart: int, recordsOnDisk: int, records: int, size: int, offset: int,
    commentLength: int)

  function EndAt(data: seq<byte>, pos: nat): End
    requires pos + 18 <= |data|
  {
    End(IntAt(data, pos, 2), IntAt(data, pos + 2, 2), IntAt(data, pos + 4, 2), IntAt(data, pos + 6, 2),
      IntAt(data, pos + 8, 4), IntAt(data, pos + 12, 4), IntAt(data, pos + 16, 2))
  }

  method ReadBlockEndOfCentral(reader: DataReader) returns (r: Option<End>)
    requires reader.Valid()
    modifies reader
    ensures reader.Valid()
    ensures old(reader.index) + 18 > |reader.data| ==> r == None
    ensures old(reader.index) + 18 <= |reader.data| ==>
      var pos := old(reader.index) + 18; var end := EndAt(reader.data, old(reader.index));
      r == if 0 <= pos + end.commentLength <= |reader.data| then Some(end) else None
  {
    hide IntAt;
    var diskNumber :- reader.ReadInt(2);
    var diskWithStart :- reader.ReadInt(2);
    var recordsOnDisk :- reader.ReadInt(2);
    var records :- reader.ReadInt(2);
    var size :- reader.ReadInt(4);
    var offset :- reader.ReadInt(4);
    var commentLength :- reader.ReadInt(2);
    var comment :- reader.ReadData(commentLength);
    r := Some(End(diskNumber, diskWithStart, recordsOnDisk, records, size, offset, commentLength));
  }

  lemma {:induction false} EndAtDirEnd(data: seq<byte>, pos: nat, n: nat, c: nat, l: nat)
    requires At(data, pos, DirEndTail(n, c, l)) && n < 0x1_0000 && c < 0x8000_0000 && l < 0x8000_0000
    ensures pos + 18 <= |data| && EndAt(data, pos) == End(0, 0, n, n, c, l, 0)
  {
    hide DecToHex, IntAt, At;
    var last := DecToHex(l, 4) + [0, 0];
    var sizes := DecToHex(c, 4) + last;
    var counts := DecToHex(n, 2) + sizes;
    AtSplit(data, pos, [0, 0], [0, 0] + (DecToHex(n, 2) + counts));
    AtSplit(data, pos + 2, [0, 0], DecToHex(n, 2) + counts);
    AtSplit(data, pos + 4, DecToHex(n, 2), counts);
    AtSplit(data, pos + 6, DecToHex(n, 2), sizes);
    AtSplit(data, pos + 8, DecToHex(c, 4), last);
    AtSplit(data, pos + 12, DecToHex(l, 4), [0, 0]);
    IntOfTwo(data, pos, 0, 0);
    IntOfTwo(data, pos + 2, 0, 0);
    IntAt2(data, pos + 4, n);
    IntAt2(data, pos + 6, n);
    IntAt4(data, pos + 8, c);
    IntAt4(data, pos + 12, l);
    IntOfTwo(data, pos + 16, 0, 0);
  }

  /**
   The end record by its last signature. An archive with a field at its maximum would need the ZIP64
   records, which are not modelled: reading such an archive counts as failing here.
   */
  method ReadEndOfCentral(reader: DataReader, ghost ps: seq<Part>) returns (r: Option<End>)
    requires reader.Valid()
    modifies reader
    ensures reader.Valid()
    ensures Storable(ps) && reader.data == Archive(ps) ==> r == ExpectedEnd(ps)
  {
    hide *;
    r := None;
    var offset := reader.LastIndexOfSignature(EndSignature());
    if Storable(ps) && reader.data == Archive(ps) {
      LastSignatureOf(reader.data, ps, offset);
      EndRead(ps, offset);
    }
    if offset != -1 {
      AtMeans(reader.data, offset, EndSignature());
      var at := reader.SetIndex(offset);
      var signature := reader.ReadData(4);
      if signature == Some(EndSignature()) {
        var end := ReadBlockEndOfCentral(reader);
        if end.Some? && !NeedsZip64(end.value) {
          r := end;
        }
      }
    }
  }

  /** One of the numbers is at the maximum that stands for "see the ZIP64 record". */
  predicate NeedsZip64(end: End) {
    end.diskNumber == 0xFFFF || end.diskWithStart == 0xFFFF || end.recordsOnDisk == 0xFFFF || end.records == 0xFFFF
    || end.size == -1 || end.offset == -1
  }

  /** The end record of an archive, unless it is ambiguous. */
  ghost function ExpectedEnd(ps: seq<Part>): Option<End> {
    if Masked(|ps|, |Centrals(ps, 0)|, |Locals(ps)|) then None
    else Some(End(0, 0, |ps|, |ps|, |Centrals(ps, 0)|, |Locals(ps)|, 0))
  }

  /** What reading at the last signature gives. */
  lemma {:induction false} EndRead(ps: seq<Part>, offset: int)
    requires Storable(ps) && LastSignature(ps, offset)
    ensures offset >= 0 && (offset + 22 <= |Archive(ps)| <==> !Masked(|ps|, |Centrals(ps, 0)|, |Locals(ps)|))
    ensures offset + 22 > |Archive(ps)| ==> ExpectedEnd(ps) == None
    ensures offset + 22 <= |Archive(ps)| ==>
      offset + 22 == |Archive(ps)| && ExpectedEnd(ps) == Some(EndAt(Archive(ps), offset + 4))
    ensures offset + 22 <= |Archive(ps)| ==> var end := EndAt(Archive(ps), offset + 4);
      end.commentLength == 0 && !NeedsZip64(end)
  {
    hide Archive, Masked, DirEndTail, EndAt, At;
    if offset == |Locals(ps)| + |Centrals(ps, 0)| {
      EndAtDirEnd(Archive(ps), offset + 4, |ps|, |Centrals(ps, 0)|, |Locals(ps)|);
    }
  }

  /** Where the last signature of an archive stands: at the end record, or within it when it is ambiguous. */
  ghost predicate LastSignature(ps: seq<Part>, offset: int) {
    var d := |Locals(ps)| + |Centrals(ps, 0)|;
    && |Archive(ps)| == d + 22 && offset >= d
    && (offset == d <==> !Masked(|ps|, |Centrals(ps, 0)|, |Locals(ps)|))
    && At(Archive(ps), d + 4, DirEndTail(|ps|, |Centrals(ps, 0)|, |Locals(ps)|))
  }

  lemma {:induction false} LastSignatureOf(data: seq<byte>, ps: seq<Part>, offset: int)
    requires data == Archive(ps)
    requires offset == -1 || At(data, offset, EndSignature())
    requires forall k :: offset < k ==> !At(data, k, EndSignature())
    ensures LastSignature(ps, offset)
  {
    hide *;
    EndOfArchive(ps);
    var n, c, l := |ps|, |Centrals(ps, 0)|, |Locals(ps)|;
    SignatureAtStart(DirEnd(n, c, l));
    LastOf(data, l + c, DirEnd(n, c, l), offset);
    MaskedMeans(n, c, l);
    SignatureMeans(ps, offset);
  }

  /** The last occurrence in the data, when there is one at the start of the suffix `end`. */
  lemma {:induction false} LastOf(data: seq<byte>, d: nat, end: seq<byte>, offset: int)
    requires At(data, d, end) && d + |end| == |data| && At(end, 0, EndSignature())
    requires offset == -1 || At(data, offset, EndSignature())
    requires forall k :: offset < k ==> !At(data, k, EndSignature())
    ensures offset >= d && (offset == d <==> !Twice(end))
  {
    hide At;
    Within(data, d, end, 0, EndSignature());
    if Twice(end) {
      var k :| 0 < k && At(end, k, EndSignature());
      Within(data, d, end, k, EndSignature());
    }
    if offset > d {
      Within(data, d, end, offset - d, EndSignature());
    }
  }

  ghost predicate Twice(end: seq<byte>) {
    exists k :: 0 < k && At(end, k, EndSignature())
  }

  lemma {:induction false} MaskedMeans(n: nat, c: nat, l: nat)
    ensures Masked(n, c, l) <==> Twice(DirEnd(n, c, l))
  {
    hide At, DirEnd;
  }

  lemma {:induction false} SignatureMeans(ps: seq<Part>, offset: int)
    requires var d := |Locals(ps)| + |Centrals(ps, 0)|;
      |Archive(ps)| == d + 22 && offset >= d && (offset == d <==> !Masked(|ps|, |Centrals(ps, 0)|, |Locals(ps)|)) &&
      At(Archive(ps), d + 4, DirEndTail(|ps|, |Centrals(ps, 0)|, |Locals(ps)|))
    ensures LastSignature(ps, offset)
  {
    hide Archive, Locals, Centrals, Masked, At, DirEndTail;
  }

  lemma {:induction false} SignatureAtStart(end: seq<byte>)
    requires |end| >= 4 && end[..4] == EndSignature()
    ensures At(end, 0, EndSignature())
  {
  }

  lemma {:induction false} EndLength(n: nat, c: nat, l: nat)
    ensures |DirEndTail(n, c, l)| == 18 && DirEnd(n, c, l) == EndSignature() + DirEndTail(n, c, l)
    ensures |DirEnd(n, c, l)| == 22 && DirEnd(n, c, l)[..4] == EndSignature()
  {
    hide DecToHex;
  }

  lemma {:induction false} EndOfArchive(ps: seq<Part>)
    ensures var l, c := |Locals(ps)|, |Centrals(ps, 0)|; var end := DirEnd(|ps|, c, l);
      && |end| == 22 && end[..4] == EndSignature() && |Archive(ps)| == l + c + 22 && At(Archive(ps), l + c, end)
      && At(Archive(ps), l + c + 4, DirEndTail(|ps|, c, l)) && At(Archive(ps), l, Centrals(ps, 0) + end)
      && At(Archive(ps), 0, Locals(ps))
  {
    hide *;
    var n, c, l := |ps|, |Centrals(ps, 0)|, |Locals(ps)|;
    ArchiveParts(ps);
    EndLength(n, c, l);
    ThreeParts(Archive(ps), Locals(ps), Centrals(ps, 0), DirEnd(n, c, l));
    AtSplit(Archive(ps), l + c, EndSignature(), DirEndTail(n, c, l));
  }

  lemma {:induction false} ArchiveParts(ps: seq<Part>)
    ensures Archive(ps) == Locals(ps) + (Centrals(ps, 0) + DirEnd(|ps|, |Centrals(ps, 0)|, |Locals(ps)|))
  {
  }

  lemma {:induction false} ThreeParts(data: seq<byte>, a: seq<byte>, b: seq<byte>, c: seq<byte>)
    requires data == a + (b + c)
    ensures |data| == |a| + |b| + |c| && At(data, 0, a) && At(data, |a|, b + c) && At(data, |a| + |b|, c)
  {
    assert At(data, 0, a + (b + c));
    hide At;
    AtSplit(data, 0, a, b + c);
    AtSplit(data, |a|, b, c);
  }

  /** Looking inside a suffix of the data. */
  lemma {:induction false} Within(data: seq<byte>, d: nat, s: seq<byte>, k: nat, t: seq<byte>)
    requires At(data, d, s) && d + |s| == |data|
    ensures At(data, d + k, t) <==> At(s, k, t)
  {
    if k + |t| <= |s| {
      var inner, outer := s[k..k + |t|], data[d + k..d + k + |t|];
      forall i | 0 <= i < |t| ensures inner[i] == outer[i] {
        assert s[k + i] == data[d..d + |s|][k + i];
      }
    }
  }

  // ---------------------------------------------------------------------------------------------
  // The central directory

  /** What the central record says about a file. */
  datatype ZipEntry = ZipEntry(bitFlag: int, compressionMethod: seq<byte>, compressedSize: int, uncompressedSize: int,
    localHeaderOffset: int, dir: bool, fileName: seq<byte>)

  /** The fields of fixed length in a central record after its signature. */
  datatype Fixed = Fixed(bitFlag: int, compressionMethod: seq<byte>, compressedSize: int, uncompressedSize: int,
    fileNameLength: int, extraFieldsLength: int, fileCommentLength: int, externalFileAttributes: int,
    localHeaderOffset: int)

  function FixedAt(data: seq<byte>, pos: nat): Fixed
    requires pos + 42 <= |data|
  {
    Fixed(IntAt(data, pos + 4, 2), data[pos + 6..pos + 8], IntAt(data, pos + 16, 4), IntAt(data, pos + 20, 4),
      IntAt(data, pos + 24, 2), IntAt(data, pos + 26, 2), IntAt(data, pos + 28, 2), IntAt(data, pos + 34, 4),
      IntAt(data, pos + 38, 4))
  }

  method ReadFixed(reader: DataReader) returns (r: Option<Fixed>)
    requires reader.Valid()
    modifies reader
    ensures reader.Valid() && (r.Some? <==> old(reader.index) + 42 <= |reader.data|)
    ensures r.Some? ==> reader.index == old(reader.index) + 42 && r.value == FixedAt(reader.data, old(reader.index))
    ensures r.Some? ==> 0 <= r.value.fileNameLength && 0 <= r.value.fileCommentLength
  {
    hide IntAt;
    var versionMadeBy :- reader.ReadData(2);
    var versionNeeded :- reader.ReadInt(2);
    var bitFlag :- reader.ReadInt(2);
    var compressionMethod :- reader.ReadData(2);
    var date :- reader.ReadInt(4);
    var crc32 :- reader.ReadInt(4);
    var compressedSize :- reader.ReadInt(4);
    var uncompressedSize :- reader.ReadInt(4);
    var fileNameLength :- reader.ReadInt(2);
    var extraFieldsLength :- reader.ReadInt(2);
    var fileCommentLength :- reader.ReadInt(2);
    var diskNumberStart :- reader.ReadInt(2);
    var internalFileAttributes :- reader.ReadInt(2);
    var externalFileAttributes :- reader.ReadInt(4);
    var localHeaderOffset :- reader.ReadInt(4);
    r := Some(Fixed(bitFlag, compressionMethod, compressedSize, uncompressedSize, fileNameLength, extraFieldsLength,
      fileCommentLength, externalFileAttributes, localHeaderOffset));
  }

  /** Skips the extra fields and says whether a ZIP64 field was among them. */
  method ReadExtraFields(reader: DataReader, length: int) returns (r: Option<bool>)
    requires reader.Valid()
    modifies reader
    ensures reader.Valid() && (r.Some? ==> reader.index >= old(reader.index))
    ensures length <= 0 ==> r == Some(false) && reader.index == old(reader.index)
  {
    var start := reader.index;
    var zip64 := false;
    while reader.index < start + length
      invariant reader.Valid() && reader.index >= start
      invariant length <= 0 ==> reader.index == start && !zip64
      decreases |reader.data| - reader.index
    {
      var extraFieldId :- reader.ReadInt(2);
      var extraFieldLength :- reader.ReadInt(2);
      var value :- reader.ReadData(extraFieldLength);
      zip64 := zip64 || extraFieldId == 1;
    }
    return Some(zip64);
  }

  /** The central record of a file after its signature. */
  function CentralBody(p: Part, offset: nat): seq<byte> {
    [0x14, 0x00] + (Header(p) + CentralTail(p, offset))
  }

  /** The numbers of the record survive being written and read. */
  predicate Bounded(p: Part, offset: nat) {
    |p.data| < 0x8000_0000 && |p.name| < 0x1_0000 && offset < 0x8000_0000
  }

  function FlagOf(p: Part): int {
    if p.utf8 then 0x0800 else 0
  }

  function EntryOf(p: Part, offset: nat): ZipEntry {
    ZipEntry(FlagOf(p), StoreMethod(), |p.data|, |p.data|, offset, p.dir, p.name)
  }

  function FixedFor(p: Part, offset: nat): Fixed {
    Fixed(FlagOf(p), StoreMethod(), |p.data|, |p.data|, |p.name|, 0, 0, if p.dir then 0x10 else 0, offset)
  }

  lemma {:induction false} SizeFieldsAt(data: seq<byte>, pos: nat, p: Part)
    requires At(data, pos, SizeFields(p)) && |p.data| < 0x8000_0000 && |p.name| < 0x1_0000
    ensures pos + 12 <= |data|
    ensures IntAt(data, pos, 4) == IntAt(data, pos + 4, 4) == |p.data|
    ensures IntAt(data, pos + 8, 2) == |p.name| && IntAt(data, pos + 10, 2) == 0
  {
    hide DecToHex, IntAt, At;
    var tail: seq<byte> := DecToHex(|p.name|, 2) + [0, 0];
    AtSplit(data, pos, DecToHex(|p.data|, 4), DecToHex(|p.data|, 4) + tail);
    AtSplit(data, pos + 4, DecToHex(|p.data|, 4), tail);
    AtSplit(data, pos + 8, DecToHex(|p.name|, 2), [0, 0]);
    IntAt4(data, pos, |p.data|);
    IntAt4(data, pos + 4, |p.data|);
    IntAt2(data, pos + 8, |p.name|);
    IntOfTwo(data, pos + 10, 0, 0);
  }

  lemma {:induction false} HeaderAt(data: seq<byte>, pos: nat, p: Part)
    requires At(data, pos, Header(p)) && |p.data| < 0x8000_0000 && |p.name| < 0x1_0000
    ensures pos + 26 <= |data| && |Header(p)| == 26
    ensures IntAt(data, pos + 2, 2) == FlagOf(p) && data[pos + 4..pos + 6] == StoreMethod()
    ensures IntAt(data, pos + 14, 4) == IntAt(data, pos + 18, 4) == |p.data|
    ensures IntAt(data, pos + 22, 2) == |p.name| && IntAt(data, pos + 24, 2) == 0
  {
    hide DecToHex, IntAt, At, SizeFields;
    SizeFieldsLength(p);
    var crc := DecToHex(p.crc, 4) + SizeFields(p);
    var stamps := DecToHex(p.time, 2) + (DecToHex(p.date, 2) + crc);
    var flags: seq<byte> := if p.utf8 then [0x00, 0x08] else [0x00, 0x00];
    AtSplit(data, pos, [0x0A, 0x00], flags + (StoreMethod() + stamps));
    AtSplit(data, pos + 2, flags, StoreMethod() + stamps);
    AtSplit(data, pos + 4, StoreMethod(), stamps);
    AtSplit(data, pos + 6, DecToHex(p.time, 2), DecToHex(p.date, 2) + crc);
    AtSplit(data, pos + 8, DecToHex(p.date, 2), crc);
    AtSplit(data, pos + 10, DecToHex(p.crc, 4), SizeFields(p));
    IntOfTwo(data, pos + 2, 0, if p.utf8 then 8 else 0);
    SizeFieldsAt(data, pos + 14, p);
    AtMeans(data, pos + 4, StoreMethod());
  }

  lemma {:induction false} SizeFieldsLength(p: Part)
    ensures |SizeFields(p)| == 12
  {
  }

  lemma {:induction false} AtMeans(data: seq<byte>, pos: nat, s: seq<byte>)
    requires At(data, pos, s)
    ensures pos + |s| <= |data| && data[pos..pos + |s|] == s
  {
  }

  lemma {:induction false} CentralTailAt(data: seq<byte>, pos: nat, p: Part, offset: nat)
    requires At(data, pos, CentralTail(p, offset)) && offset < 0x8000_0000
    ensures pos + 14 <= |data| && |CentralTail(p, offset)| == 14 + |p.name|
    ensures IntAt(data, pos, 2) == 0 && IntAt(data, pos + 6, 4) == (if p.dir then 0x10 else 0)
    ensures IntAt(data, pos + 10, 4) == offset
    ensures At(data, pos + 14, p.name)
  {
    hide IntAt, At;
    var attributes: seq<byte> := if p.dir then [0x10, 0, 0, 0] else [0, 0, 0, 0];
    assert attributes == DecToHex(if p.dir then 0x10 else 0, 4) by {
      FourBytes(if p.dir then 0x10 else 0);
    }
    hide DecToHex;
    var last := DecToHex(offset, 4) + p.name;
    AtSplit(data, pos, [0, 0], [0, 0] + ([0, 0] + (attributes + last)));
    AtSplit(data, pos + 2, [0, 0], [0, 0] + (attributes + last));
    AtSplit(data, pos + 4, [0, 0], attributes + last);
    AtSplit(data, pos + 6, attributes, last);
    AtSplit(data, pos + 10, DecToHex(offset, 4), p.name);
    IntOfTwo(data, pos, 0, 0);
    IntAt4(data, pos + 6, if p.dir then 0x10 else 0);
    IntAt4(data, pos + 10, offset);
    AtMeans(data, pos + 14, p.name);
  }

  lemma {:induction false} FixedOf(data: seq<byte>, pos: nat, p: Part, offset: nat)
    requires Recorded(data, pos, p, offset)
    ensures |CentralBody(p, offset)| == 42 + |p.name| && pos + 42 + |p.name| <= |data|
    ensures FixedAt(data, pos) == FixedFor(p, offset) && data[pos + 42..pos + 42 + |p.name|] == p.name
    ensures var f := FixedFor(p, offset);
      f.bitFlag == FlagOf(p) && f.fileNameLength == |p.name| && f.extraFieldsLength == f.fileCommentLength == 0
    ensures !Bit(FlagOf(p), 1) && (Bit(FixedFor(p, offset).externalFileAttributes, 0x10) <==> p.dir)
  {
    hide IntAt, At, Header, CentralTail;
    AtSplit(data, pos, [0x14, 0x00], Header(p) + CentralTail(p, offset));
    AtSplit(data, pos + 2, Header(p), CentralTail(p, offset));
    HeaderAt(data, pos + 2, p);
    CentralTailAt(data, pos + 28, p, offset);
    AtMeans(data, pos + 42, p.name);
  }

  /** The bit with the value `mask` of a number. */
  predicate Bit(x: int, mask: int)
    requires mask > 0
  {
    x / mask % 2 == 1
  }

  /** The name, the extra fields and the comment; a ZIP64 field fails. */
  method ReadVariable(reader: DataReader, fixed: Fixed) returns (fileName: Option<seq<byte>>)
    requires reader.Valid() && 0 <= fixed.fileNameLength && 0 <= fixed.fileCommentLength
    modifies reader
    ensures reader.Valid() && (fileName.Some? ==> reader.index >= old(reader.index))
    ensures var end := old(reader.index) + fixed.fileNameLength;
      fixed.extraFieldsLength == fixed.fileCommentLength == 0 && end <= |reader.data| ==>
      fileName == Some(reader.data[old(reader.index)..end]) && reader.index == end
  {
    var name :- reader.ReadData(fixed.fileNameLength);
    var zip64 :- ReadExtraFields(reader, fixed.extraFieldsLength);
    if zip64 {
      return None;
    }
    var fileComment :- reader.ReadData(fixed.fileCommentLength);
    fileName := Some(name);
  }

  /** Reads a central record after its signature. Encrypted and ZIP64 entries fail. */
  method ReadCentralPart(reader: DataReader, ghost p: Part, ghost offset: nat) returns (r: Option<ZipEntry>)
    requires reader.Valid()
    modifies reader
    ensures reader.Valid() && (r.Some? ==> reader.index >= old(reader.index))
    ensures Recorded(reader.data, old(reader.index), p, offset) ==> r == Some(EntryOf(p, offset))
    ensures Recorded(reader.data, old(reader.index), p, offset) ==>
      reader.index == old(reader.index) + |CentralBody(p, offset)|
  {
    hide *;
    ghost var pos := reader.index;
    r := None;
    var fixed := ReadFixed(reader);
    if Recorded(reader.data, pos, p, offset) {
      RecordedMeans(reader.data, pos, p, offset);
    }
    if fixed.Some? && !Bit(fixed.value.bitFlag, 1) {
      var fileName := ReadVariable(reader, fixed.value);
      if fileName.Some? {
        r := Some(EntryFrom(fixed.value, fileName.value));
      }
    }
  }

  /** What reading a central record gives. */
  lemma {:induction false} RecordedMeans(data: seq<byte>, pos: nat, p: Part, offset: nat)
    requires Recorded(data, pos, p, offset)
    ensures pos + 42 + |p.name| <= |data| && data[pos + 42..pos + 42 + |p.name|] == p.name
    ensures var f := FixedAt(data, pos); f.fileNameLength == |p.name| && f.extraFieldsLength == f.fileCommentLength == 0
    ensures var f := FixedAt(data, pos); !Bit(f.bitFlag, 1) && EntryFrom(f, p.name) == EntryOf(p, offset)
    ensures |CentralBody(p, offset)| == 42 + |p.name|
  {
    FixedOf(data, pos, p, offset);
    hide FixedAt, CentralBody, At, StoreMethod;
  }

  function EntryFrom(fixed: Fixed, fileName: seq<byte>): ZipEntry {
    ZipEntry(fixed.bitFlag, fixed.compressionMethod, fixed.compressedSize, fixed.uncompressedSize,
      fixed.localHeaderOffset, Bit(fixed.externalFileAttributes, 0x10), fileName)
  }

  /** The central record of a file stands here, after its signature. */
  ghost predicate Recorded(data: seq<byte>, pos: nat, p: Part, offset: nat) {
    At(data, pos, CentralBody(p, offset)) && Bounded(p, offset)
  }

  // ---------------------------------------------------------------------------------------------

  function Entries(ps: seq<Part>, k: nat): seq<ZipEntry>
    requires k <= |ps|
  {
    if k == 0 then [] else Entries(ps, k - 1) + [EntryOf(ps[k - 1], LocalOffset(ps, k - 1))]
  }

  /** After `k` records: the next signature has been read, and the rest of the records follows. */
  ghost predicate Reading(data: seq<byte>, index: nat, ps: seq<Part>, k: nat, ends: seq<byte>)
    requires k <= |ps|
  {
    index >= 4 && At(data, index - 4, Centrals(ps[k..], LocalOffset(ps, k)) + (EndSignature() + ends))
  }

  lemma {:induction false} ReadingNext(data: seq<byte>, index: nat, ps: seq<Part>, k: nat, ends: seq<byte>)
    requires k < |ps| && Reading(data, index, ps, k, ends) && Storable(ps)
    ensures index <= |data| && data[index - 4..index] == CentralSignature()
    ensures Recorded(data, index, ps[k], LocalOffset(ps, k))
  {
    StorableSizes(ps, k);
    hide *;
    ReadingParts(data, index, ps, k, ends);
    AtMeans(data, index - 4, CentralSignature());
    RecordedIs(data, index, ps[k], LocalOffset(ps, k));
  }

  lemma {:induction false} ReadingAfter(data: seq<byte>, index: nat, ps: seq<Part>, k: nat, ends: seq<byte>)
    requires k < |ps| && Reading(data, index, ps, k, ends)
    ensures var next := index + |CentralBody(ps[k], LocalOffset(ps, k))| + 4;
      Reading(data, next, ps, k + 1, ends) && next <= |data|
  {
    hide *;
    ReadingParts(data, index, ps, k, ends);
    ReadingIs(data, index + |CentralBody(ps[k], LocalOffset(ps, k))| + 4, ps, k + 1, ends);
  }

  lemma {:induction false} ReadingParts(data: seq<byte>, index: nat, ps: seq<Part>, k: nat, ends: seq<byte>)
    requires k < |ps| && Reading(data, index, ps, k, ends)
    ensures index >= 4 && At(data, index - 4, CentralSignature())
    ensures At(data, index, CentralBody(ps[k], LocalOffset(ps, k)))
    ensures At(data, index + |CentralBody(ps[k], LocalOffset(ps, k))|,
      Centrals(ps[k + 1..], LocalOffset(ps, k + 1)) + (EndSignature() + ends))
  {
    hide *;
    ReadingMeans(data, index, ps, k, ends);
    NextRecord(ps, k);
    Peel(data, index - 4, CentralSignature(), CentralBody(ps[k], LocalOffset(ps, k)),
      Centrals(ps[k + 1..], LocalOffset(ps, k + 1)), EndSignature() + ends);
  }

  lemma {:induction false} RecordedIs(data: seq<byte>, pos: nat, p: Part, offset: nat)
    requires |p.data| < 0x8000_0000 && |p.name| < 0x1_0000
    requires offset < 0x8000_0000 && At(data, pos, CentralBody(p, offset))
    ensures Recorded(data, pos, p, offset)
  {
    hide At, CentralBody;
  }

  lemma {:induction false} ReadingMeans(data: seq<byte>, index: nat, ps: seq<Part>, k: nat, ends: seq<byte>)
    requires k <= |ps| && Reading(data, index, ps, k, ends)
    ensures index >= 4 && At(data, index - 4, Centrals(ps[k..], LocalOffset(ps, k)) + (EndSignature() + ends))
  {
    hide At, Centrals, LocalOffset, EndSignature;
  }

  lemma {:induction false} ReadingIs(data: seq<byte>, index: nat, ps: seq<Part>, k: nat, ends: seq<byte>)
    requires k <= |ps| && index >= 4
    requires At(data, index - 4, Centrals(ps[k..], LocalOffset(ps, k)) + (EndSignature() + ends))
    ensures Reading(data, index, ps, k, ends) && index <= |data|
  {
    AtMeans(data, index - 4, Centrals(ps[k..], LocalOffset(ps, k)) + (EndSignature() + ends));
    hide At, Centrals, LocalOffset, EndSignature;
  }

  lemma {:induction false} NextRecord(ps: seq<Part>, k: nat)
    requires k < |ps|
    ensures Centrals(ps[k..], LocalOffset(ps, k))
         == (CentralSignature() + CentralBody(ps[k], LocalOffset(ps, k)))
              + Centrals(ps[k + 1..], LocalOffset(ps, k + 1))
  {
    hide *;
    CentralsSplit(ps, LocalOffset(ps, k), k);
    LocalOffsetNext(ps, k);
    RecordIs(ps[k], LocalOffset(ps, k));
  }

  lemma {:induction false} Peel(data: seq<byte>, pos: int, a: seq<byte>, b: seq<byte>, c: seq<byte>, d: seq<byte>)
    requires At(data, pos, ((a + b) + c) + d)
    ensures At(data, pos, a) && At(data, pos + |a|, b) && At(data, pos + |a| + |b|, c + d)
  {
    hide *;
    Grouped(a, b, c, d);
    AtSplit(data, pos, a, b + (c + d));
    AtSplit(data, pos + |a|, b, c + d);
  }

  lemma {:induction false} RecordIs(p: Part, offset: nat)
    ensures DirRecord(p, offset) == CentralSignature() + CentralBody(p, offset)
  {
  }

  lemma {:induction false} Grouped(a: seq<byte>, b: seq<byte>, c: seq<byte>, d: seq<byte>)
    ensures ((a + b) + c) + d == a + (b + (c + d))
  {
  }

  lemma {:induction false} ReadingEnds(data: seq<byte>, index: nat, ps: seq<Part>, k: nat, ends: seq<byte>)
    requires k == |ps| && Reading(data, index, ps, k, ends)
    ensures index <= |data| && data[index - 4..index] == EndSignature()
  {
    assert Centrals(ps[k..], LocalOffset(ps, k)) + (EndSignature() + ends) == EndSignature() + ends;
    hide At, Centrals, LocalOffset, EndSignature;
    AtSplit(data, index - 4, EndSignature(), ends);
    AtMeans(data, index - 4, EndSignature());
  }

  /** The first records have been read, and the signature after them. */
  ghost predicate Progress(data: seq<byte>, index: nat, signature: seq<byte>, ps: seq<Part>, files: seq<ZipEntry>,
      ends: seq<byte>) {
    && |files| <= |ps| && files == Entries(ps, |files|) && Reading(data, index, ps, |files|, ends)
    && 4 <= index <= |data| && signature == data[index - 4..index]
  }

  lemma {:induction false} ProgressStep(data: seq<byte>, index: nat, ps: seq<Part>, files: seq<ZipEntry>,
      ends: seq<byte>)
      returns (p: Part, offset: nat)
    requires Storable(ps) && Progress(data, index, CentralSignature(), ps, files, ends)
    ensures Recorded(data, index, p, offset)
    ensures var next := index + |CentralBody(p, offset)| + 4;
      next <= |data| && Progress(data, next, data[next - 4..next], ps, files + [EntryOf(p, offset)], ends)
  {
    hide Reading, Entries, Recorded, CentralBody, EntryOf, LocalOffset, Storable, CentralSignature;
    RecordFollows(data, index, ps, |files|, ends);
    p, offset := ps[|files|], LocalOffset(ps, |files|);
  }

  lemma {:induction false} ProgressEnd(data: seq<byte>, index: nat, signature: seq<byte>, ps: seq<Part>,
      files: seq<ZipEntry>, ends: seq<byte>)
    requires Storable(ps) && Progress(data, index, signature, ps, files, ends) && signature != CentralSignature()
    ensures files == Entries(ps, |ps|)
  {
    hide Reading, Entries, Recorded, Storable, CentralSignature;
    if |files| < |ps| {
      ReadingNext(data, index, ps, |files|, ends);
    }
  }

  /** Reads central records until something else comes; the first signature has been read. */
  method ReadRecords(reader: DataReader, first: seq<byte>, ghost known: bool, ghost ps: seq<Part>,
      ghost ends: seq<byte>) returns (r: Option<seq<ZipEntry>>)
    requires reader.Valid()
    requires known ==> Storable(ps) && Progress(reader.data, reader.index, first, ps, [], ends)
    modifies reader
    ensures reader.Valid()
    ensures known ==> r == Some(Entries(ps, |ps|))
  {
    hide Progress, CentralSignature, Entries, Storable, EntryOf, Recorded, CentralBody;
    var files: seq<ZipEntry> := [];
    var signature := Some(first);
    while signature == Some(CentralSignature())
      invariant reader.Valid()
      invariant known ==> signature.Some? && Progress(reader.data, reader.index, signature.value, ps, files, ends)
      decreases if signature.None? then 0 else 1 + |reader.data| - reader.index
    {
      ghost var p, offset := NO_PART, 0;
      if known {
        p, offset := ProgressStep(reader.data, reader.index, ps, files, ends);
      }
      var file := ReadCentralPart(reader, p, offset);
      signature := None;
      if file.Some? {
        files := files + [file.value];
        signature := reader.ReadData(4);
      }
    }
    if known {
      ProgressEnd(reader.data, reader.index, signature.value, ps, files, ends);
    }
    r := if signature.Some? then Some(files) else None;
  }

  /** Reads the central directory. */
  method ReadCentralDir(reader: DataReader, centralDirOffset: int, ghost ps: seq<Part>)
      returns (r: Option<seq<ZipEntry>>)
    requires reader.Valid()
    modifies reader
    ensures reader.Valid()
    ensures Storable(ps) && reader.data == Archive(ps) && centralDirOffset == |Locals(ps)| ==>
      r == Some(Entries(ps, |ps|))
  {
    hide *;
    ghost var known := Storable(ps) && reader.data == Archive(ps) && centralDirOffset == |Locals(ps)|;
    ghost var ends := DirEndTail(|ps|, |Centrals(ps, 0)|, |Locals(ps)|);
    if known {
      FirstRecord(ps);
    }
    r := None;
    var at := reader.SetIndex(centralDirOffset);
    if at.Some? {
      var signature := reader.ReadData(4);
      if signature.Some? {
        r := ReadRecords(reader, signature.value, known, ps, ends);
      }
    }
  }

  /** While the signature of a central record has been read, there is a record left. */
  lemma {:induction false} RecordFollows(data: seq<byte>, index: nat, ps: seq<Part>, k: nat, ends: seq<byte>)
    requires k <= |ps| && Storable(ps) && Reading(data, index, ps, k, ends)
    requires 4 <= index <= |data| && data[index - 4..index] == CentralSignature()
    ensures k < |ps| && Recorded(data, index, ps[k], LocalOffset(ps, k))
    ensures var next := index + |CentralBody(ps[k], LocalOffset(ps, k))| + 4;
      Reading(data, next, ps, k + 1, ends) && next <= |data|
    ensures Entries(ps, k + 1) == Entries(ps, k) + [EntryOf(ps[k], LocalOffset(ps, k))]
  {
    assert EndSignature() != CentralSignature() by { assert EndSignature()[2] != CentralSignature()[2]; }
    hide *;
    if k == |ps| {
      ReadingEnds(data, index, ps, k, ends);
    } else {
      ReadingNext(data, index, ps, k, ends);
      ReadingAfter(data, index, ps, k, ends);
      EntriesNext(ps, k);
    }
  }

  const NO_PART := Part([], false, [], false, 0, 0, 0)

  lemma {:induction false} EntriesNext(ps: seq<Part>, k: nat)
    requires k < |ps|
    ensures Entries(ps, k + 1) == Entries(ps, k) + [EntryOf(ps[k], LocalOffset(ps, k))]
  {
  }

  lemma {:induction false} FirstRecord(ps: seq<Part>)
    ensures var ends := DirEndTail(|ps|, |Centrals(ps, 0)|, |Locals(ps)|);
      |Locals(ps)| + 4 <= |Archive(ps)| && var index := |Locals(ps)| + 4;
      Progress(Archive(ps), index, Archive(ps)[index - 4..index], ps, [], ends)
  {
    EndOfArchive(ps);
    assert ps[0..] == ps && LocalOffset(ps, 0) == 0;
    hide Archive, Locals, Centrals, DirEndTail, At;
  }

  // ---------------------------------------------------------------------------------------------
  // The local records

  /** A file as loaded: the name in its local record, the content and the directory flag. */
  datatype Loaded = Loaded(fileName: seq<byte>, utf8: bool, content: seq<byte>, dir: bool)

  function LoadedOf(p: Part): Loaded {
    Loaded(p.name, p.utf8, p.data, p.dir)
  }

  /** Reads a local record after its signature, and the content behind it. */
  method ReadLocalPart(reader: DataReader, file: ZipEntry, ghost p: Part) returns (r: Option<Loaded>)
    requires reader.Valid()
    modifies reader
    ensures reader.Valid()
    ensures LocalFollows(reader.data, old(reader.index), file, p) ==> r == Some(LoadedOf(p))
  {
    hide *;
    ghost var pos := reader.index;
    if LocalFollows(reader.data, pos, file, p) {
      LocalMeans(reader.data, pos, file, p);
    }
    r := None;
    var skipped := reader.Skip(22);
    var fileNameLength := reader.ReadInt(2);
    var localExtraFieldsLength := reader.ReadInt(2);
    if skipped.None? || fileNameLength.None? || localExtraFieldsLength.None? {
      return;
    }
    var fileName := reader.ReadData(fileNameLength.value);
    var extra := reader.Skip(localExtraFieldsLength.value);
    if fileName.None? || extra.None? || file.compressedSize == -1 || file.uncompressedSize == -1 ||
       file.compressionMethod != StoreMethod()
    {
      return;
    }
    var content := reader.ReadData(file.compressedSize);
    if content.Some? && |content.value| == file.uncompressedSize {
      r := Some(Loaded(fileName.value, Bit(file.bitFlag, 0x0800), content.value, file.dir));
    }
  }

  /** The rest of the local record of `p` and its content stand here, and the entry is that of `p`. */
  ghost predicate LocalFollows(data: seq<byte>, pos: nat, file: ZipEntry, p: Part) {
    && At(data, pos, Header(p) + (p.name + p.data)) && |p.data| < 0x8000_0000 && |p.name| < 0x1_0000
    && exists offset: nat :: file == EntryOf(p, offset)
  }

  lemma {:induction false} LocalMeans(data: seq<byte>, pos: nat, file: ZipEntry, p: Part)
    requires LocalFollows(data, pos, file, p)
    ensures pos + 26 + |p.name| + |p.data| <= |data|
    ensures IntAt(data, pos + 22, 2) == |p.name| && IntAt(data, pos + 24, 2) == 0
    ensures data[pos + 26..pos + 26 + |p.name|] == p.name
    ensures data[pos + 26 + |p.name|..pos + 26 + |p.name| + |p.data|] == p.data
    ensures file.compressedSize == file.uncompressedSize == |p.data| && file.compressionMethod == StoreMethod()
    ensures (Bit(file.bitFlag, 0x0800) <==> p.utf8) && file.dir == p.dir
    ensures LoadedOf(p) == Loaded(p.name, p.utf8, p.data, p.dir)
  {
    hide At, Header, IntAt, StoreMethod;
    AtSplit(data, pos, Header(p), p.name + p.data);
    HeaderAt(data, pos, p);
    AtSplit(data, pos + 26, p.name, p.data);
    AtMeans(data, pos + 26, p.name);
    AtMeans(data, pos + 26 + |p.name|, p.data);
  }

  function AllLoaded(ps: seq<Part>, k: nat): seq<Loaded>
    requires k <= |ps|
  {
    if k == 0 then [] else AllLoaded(ps, k - 1) + [LoadedOf(ps[k - 1])]
  }

  lemma {:induction false} EntriesAt(ps: seq<Part>, n: nat, k: nat)
    requires k < n <= |ps|
    ensures |Entries(ps, n)| == n && Entries(ps, n)[k] == EntryOf(ps[k], LocalOffset(ps, k))
  {
    if k < n - 1 {
      EntriesAt(ps, n - 1, k);
    } else if k > 0 {
      EntriesAt(ps, n - 1, k - 1);
    } else {
      assert Entries(ps, 0) == [];
    }
  }

  lemma {:induction false} LoadedNext(ps: seq<Part>, k: nat)
    requires k < |ps|
    ensures AllLoaded(ps, k + 1) == AllLoaded(ps, k) + [LoadedOf(ps[k])]
  {
    hide LoadedOf;
  }

  lemma {:induction false} EntryOffset(p: Part, offset: nat)
    ensures EntryOf(p, offset).localHeaderOffset == offset
  {
  }

  /** The local record of the `k`-th file of an archive. */
  lemma {:induction false} LocalRecord(ps: seq<Part>, k: nat)
    requires Storable(ps) && k < |ps|
    ensures |Entries(ps, |ps|)| == |ps| && LocalAt(Archive(ps), Entries(ps, |ps|)[k], ps[k])
    ensures AllLoaded(ps, k + 1) == AllLoaded(ps, k) + [LoadedOf(ps[k])]
  {
    hide *;
    LoadedNext(ps, k);
    EntryOffset(ps[k], LocalOffset(ps, k));
    EntriesAt(ps, |ps|, k);
    StorableSizes(ps, k);
    LocalInArchive(ps, k);
    LocalSplits(Archive(ps), LocalOffset(ps, k), ps[k]);
    FollowsIs(Archive(ps), LocalOffset(ps, k) + 4, ps[k], LocalOffset(ps, k));
    LocalAtIs(Archive(ps), EntryOf(ps[k], LocalOffset(ps, k)), ps[k]);
  }

  /** Every local record stands where its central record says. */
  lemma {:induction false} LocalInArchive(ps: seq<Part>, k: nat)
    requires k < |ps|
    ensures At(Archive(ps), LocalOffset(ps, k), Local(ps[k]))
  {
    hide *;
    EndOfArchive(ps);
    LocalsAt(Archive(ps), 0, ps, k);
  }

  lemma {:induction false} LocalSplits(data: seq<byte>, pos: nat, p: Part)
    requires At(data, pos, Local(p))
    ensures pos + 4 <= |data| && data[pos..pos + 4] == LocalSignature()
    ensures At(data, pos + 4, Header(p) + (p.name + p.data))
  {
    hide *;
    LocalIs(p);
    AtSplit(data, pos, LocalSignature(), Header(p) + (p.name + p.data));
    AtMeans(data, pos, LocalSignature());
  }

  lemma {:induction false} LocalAtIs(data: seq<byte>, file: ZipEntry, p: Part)
    requires var pos := file.localHeaderOffset;
      0 <= pos && pos + 4 <= |data| && data[pos..pos + 4] == LocalSignature() && LocalFollows(data, pos + 4, file, p)
    ensures LocalAt(data, file, p)
  {
    hide LocalSignature, LocalFollows;
  }

  lemma {:induction false} FollowsIs(data: seq<byte>, pos: nat, p: Part, offset: nat)
    requires At(data, pos, Header(p) + (p.name + p.data)) && |p.data| < 0x8000_0000 && |p.name| < 0x1_0000
    ensures LocalFollows(data, pos, EntryOf(p, offset), p)
  {
    hide At, Header, EntryOf;
  }

  lemma {:induction false} LocalIs(p: Part)
    ensures Local(p) == LocalSignature() + (Header(p) + (p.name + p.data))
  {
    hide Header;
  }

  /** Checks the signature of a local record and reads the record. */
  method ReadLocalFile(reader: DataReader, file: ZipEntry, ghost p: Part) returns (r: Option<Loaded>)
    requires reader.Valid()
    modifies reader
    ensures reader.Valid()
    ensures LocalAt(reader.data, file, p) ==> r == Some(LoadedOf(p))
  {
    hide LocalSignature, LocalFollows, LoadedOf;
    r := None;
    var at := reader.SetIndex(file.localHeaderOffset);
    if at.Some? {
      var signature := reader.ReadData(4);
      if signature == Some(LocalSignature()) {
        r := ReadLocalPart(reader, file, p);
      }
    }
  }

  /** The local record of `p` stands where the entry says. */
  ghost predicate LocalAt(data: seq<byte>, file: ZipEntry, p: Part) {
    var pos := file.localHeaderOffset;
    0 <= pos && pos + 4 <= |data| && data[pos..pos + 4] == LocalSignature() && LocalFollows(data, pos + 4, file, p)
  }

  method ReadLocalFiles(reader: DataReader, files: seq<ZipEntry>, ghost ps: seq<Part>) returns (r: Option<seq<Loaded>>)
    requires reader.Valid()
    modifies reader
    ensures reader.Valid()
    ensures Storable(ps) && reader.data == Archive(ps) && files == Entries(ps, |ps|) ==> r == Some(AllLoaded(ps, |ps|))
  {
    hide *;
    ghost var known := Storable(ps) && reader.data == Archive(ps) && files == Entries(ps, |ps|);
    var loaded: seq<Loaded> := [];
    NoneLoaded(ps);
    EntriesCount(ps);
    var i := 0;
    r := None;
    while i < |files|
      invariant 0 <= i <= |files| && reader.Valid()
      invariant known ==> i <= |ps| && loaded == AllLoaded(ps, i)
    {
      if known {
        LocalRecord(ps, i);
      }
      var file := ReadLocalFile(reader, files[i], if i < |ps| then ps[i] else NO_PART);
      if file.None? {
        return;
      }
      loaded := loaded + [file.value];
      i := i + 1;
    }
    r := Some(loaded);
  }

  lemma {:induction false} NoneLoaded(ps: seq<Part>)
    ensures AllLoaded(ps, 0) == []
  {
  }

  lemma {:induction false} EntriesCount(ps: seq<Part>)
    ensures |Entries(ps, |ps|)| == |ps|
  {
    if ps != [] {
      EntriesAt(ps, |ps|, 0);
    }
  }

  /**
   Loads an archive. The archive of storable files loads exactly if its end record is not ambiguous, and then
   gives back every file.
   */
  method LoadEntries(data: seq<byte>, ghost ps: seq<Part>) returns (r: Option<seq<Loaded>>)
    ensures Storable(ps) && data == Archive(ps) ==>
      r == if Masked(|ps|, |Centrals(ps, 0)|, |Locals(ps)|) then None else Some(AllLoaded(ps, |ps|))
  {
    hide Storable, Archive, Masked, Centrals, Locals, AllLoaded, Entries;
    var reader := new DataReader(data);
    r := None;
    var end := ReadEndOfCentral(reader, ps);
    if end.Some? {
      var files := ReadCentralDir(reader, end.value.offset, ps);
      if files.Some? {
        r := ReadLocalFiles(reader, files.value, ps);
      }
    }
  }
}
