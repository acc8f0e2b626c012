/**
 The bytes of a ZIP archive of stored files, as sections 4.3.7, 4.3.12 and 4.3.16 of PKWARE's APPNOTE lay them
 out and as the generator fills them in.
 */
module ZipFormat {
  import opened Bits

  /** What the records say about one file; the name is already encoded. */
  datatype Part = Part(name: seq<byte>, utf8: bool, data: seq<byte>, dir: bool, time: int, date: int, crc: int)

  function LocalSignature(): (s: seq<byte>)
    ensures |s| == 4
  {
    [0x50, 0x4b, 0x03, 0x04]
  }

  function CentralSignature(): (s: seq<byte>)
    ensures |s| == 4
  {
    [0x50, 0x4b, 0x01, 0x02]
  }

  function EndSignature(): (s: seq<byte>)
    ensures |s| == 4
  {
    [0x50, 0x4b, 0x05, 0x06]
  }

  /** The compression method of stored files. */
  function StoreMethod(): (s: seq<byte>)
    ensures |s| == 2
  {
    [0, 0]
  }

  const WORD := 0x1_0000_0000

  /** The lowest `n` bytes of a number, the lowest first. */
  function LittleEndian(v: nat, n: nat): (s: seq<byte>)
    ensures |s| == n
  {
    if n == 0 then [] else [v % 256] + LittleEndian(v / 256, n - 1)
  }

  /** Bit operations see a number modulo 2^32. */
  function Word(dec: int): nat {
    dec % WORD
  }

  function DecToHex(dec: int, bytes: nat): (s: seq<byte>)
    ensures |s| == bytes
  {
    LittleEndian(Word(dec), bytes)
  }

  /** The part of the header that gives the sizes and the length of the name. */
  function SizeFields(p: Part): seq<byte> {
    DecToHex(|p.data|, 4) + (DecToHex(|p.data|, 4) + (DecToHex(|p.name|, 2) + [0, 0]))
  }

  /** The 26 bytes that the local and the central record share. */
  function Header(p: Part): seq<byte> {
    [0x0A, 0x00] + ((if p.utf8 then [0x00, 0x08] else [0x00, 0x00]) + (StoreMethod() +
      (DecToHex(p.time, 2) + (DecToHex(p.date, 2) + (DecToHex(p.crc, 4) + SizeFields(p))))))
  }

  function FileRecord(p: Part): seq<byte> {
    LocalSignature() + (Header(p) + p.name)
  }

  /** The fields of the central record after the shared ones. */
  function CentralTail(p: Part, offset: nat): seq<byte> {
    [0, 0] + ([0, 0] + ([0, 0] + ((if p.dir then [0x10, 0, 0, 0] else [0, 0, 0, 0]) + (DecToHex(offset, 4) + p.name))))
  }

  function DirRecord(p: Part, offset: nat): seq<byte> {
    CentralSignature() + ([0x14, 0x00] + (Header(p) + CentralTail(p, offset)))
  }

  function DirEndTail(count: nat, centralDirLength: nat, localDirLength: nat): seq<byte> {
    [0, 0] + ([0, 0] + (DecToHex(count, 2) + (DecToHex(count, 2) + (DecToHex(centralDirLength, 4) +
      (DecToHex(localDirLength, 4) + [0, 0])))))
  }

  function DirEnd(count: nat, centralDirLength: nat, localDirLength: nat): seq<byte> {
    EndSignature() + DirEndTail(count, centralDirLength, localDirLength)
  }

  /** The local record of a file followed by its content. */
  function Local(p: Part): seq<byte> {
    FileRecord(p) + p.data
  }

  function Locals(ps: seq<Part>): seq<byte> {
    if ps == [] then [] else Local(ps[0]) + Locals(ps[1..])
  }

  /** The central records of files whose local records begin at `offset`. */
  function Centrals(ps: seq<Part>, offset: nat): seq<byte> {
    if ps == [] then [] else DirRecord(ps[0], offset) + Centrals(ps[1..], offset + |Local(ps[0])|)
  }

  function Archive(ps: seq<Part>): seq<byte> {
    Locals(ps) + (Centrals(ps, 0) + DirEnd(|ps|, |Centrals(ps, 0)|, |Locals(ps)|))
  }

  // ---------------------------------------------------------------------------------------------
  // Finding bytes in an archive

  /** The bytes `s` stand in `data` at `pos`. */
  predicate At(data: seq<byte>, pos: int, s: seq<byte>) {
    0 <= pos && pos + |s| <= |data| && data[pos..pos + |s|] == s
  }

  lemma {:induction false} AtSplit(data: seq<byte>, pos: int, s: seq<byte>, t: seq<byte>)
    ensures At(data, pos, s + t) <==> At(data, pos, s) && At(data, pos + |s|, t)
  {
    if At(data, pos, s + t) {
      assert data[pos..pos + |s|] == data[pos..pos + |s + t|][..|s|] == s;
      assert data[pos + |s|..pos + |s| + |t|] == data[pos..pos + |s + t|][|s|..] == t;
    }
    if At(data, pos, s) && At(data, pos + |s|, t) {
      assert data[pos..pos + |s + t|] == data[pos..pos + |s|] + data[pos + |s|..pos + |s| + |t|];
    }
  }

  /** The records of the `k`-th file: where its local record begins, and where its central one. */
  function LocalOffset(ps: seq<Part>, k: nat): nat
    requires k <= |ps|
  {
    if k == 0 then 0 else |Local(ps[0])| + LocalOffset(ps[1..], k - 1)
  }

  lemma {:induction false} LocalsAt(data: seq<byte>, pos: nat, ps: seq<Part>, k: nat)
    requires At(data, pos, Locals(ps)) && k < |ps|
    ensures At(data, pos + LocalOffset(ps, k), Local(ps[k]))
    decreases k
  {
    hide Local, At;
    AtSplit(data, pos, Local(ps[0]), Locals(ps[1..]));
    if k > 0 {
      LocalsAt(data, pos + |Local(ps[0])|, ps[1..], k - 1);
    }
  }

  lemma {:induction false} LocalOffsetWithin(ps: seq<Part>, k: nat)
    requires k <= |ps|
    ensures LocalOffset(ps, k) <= |Locals(ps)| && LocalOffset(ps, |ps|) == |Locals(ps)|
  {
    if ps != [] {
      LocalOffsetWithin(ps[1..], if k > 0 then k - 1 else 0);
    }
  }

  lemma {:induction false} LocalOffsetNext(ps: seq<Part>, k: nat)
    requires k < |ps|
    ensures LocalOffset(ps, k + 1) == LocalOffset(ps, k) + |Local(ps[k])|
  {
    if k > 0 {
      LocalOffsetNext(ps[1..], k - 1);
    }
  }

  lemma {:induction false} CentralsSplit(ps: seq<Part>, offset: nat, k: nat)
    requires k < |ps|
    ensures Centrals(ps[k..], offset) == DirRecord(ps[k], offset) + Centrals(ps[k + 1..], offset + |Local(ps[k])|)
  {
    assert ps[k..][0] == ps[k] && ps[k..][1..] == ps[k + 1..];
    hide DirRecord, Local;
  }

  /** The records an archive can hold and its reader can address. */
  ghost predicate Storable(ps: seq<Part>) {
    && |ps| < 0xFFFF && |Locals(ps)| < 0x8000_0000 && |Centrals(ps, 0)| < 0x8000_0000
    && forall p :: p in ps ==> |p.name| < 0x1_0000 && (p.dir ==> p.data == [])
  }

  lemma {:induction false} StorableSizes(ps: seq<Part>, k: nat)
    requires Storable(ps) && k < |ps|
    ensures |ps[k].data| < 0x8000_0000 && LocalOffset(ps, k) < 0x8000_0000 && |ps[k].name| < 0x1_0000
  {
    LocalOffsetWithin(ps, k + 1);
    LocalOffsetNext(ps, k);
    assert ps[k] in ps;
  }

  // ---------------------------------------------------------------------------------------------
  // The signature of the end record inside the end record

  /** The end record with these numbers contains its own signature a second time. */
  ghost predicate Masked(count: nat, centralDirLength: nat, localDirLength: nat) {
    exists k :: 0 < k && At(DirEnd(count, centralDirLength, localDirLength), k, EndSignature())
  }

  /** The same as a test of the three numbers. */
  predicate MaskedNumbers(n: nat, c: nat, l: nat) {
    || (n == 0x4B50 && c % 0x1_0000 == 0x0605)
    || (n / 256 == 0x50 && c % 0x100_0000 == 0x06054B)
    || c == 0x06054B50
    || (c / 256 == 0x054B50 && l % 256 == 0x06)
    || (c / 0x1_0000 == 0x4B50 && l % 0x1_0000 == 0x0605)
    || (c / 0x100_0000 == 0x50 && l % 0x100_0000 == 0x06054B)
    || l == 0x06054B50
  }

  function Byte(v: nat, k: nat): byte {
    if k == 0 then v % 256 else Byte(v / 256, k - 1)
  }

  lemma {:induction false} LittleEndianAt(v: nat, n: nat, k: nat)
    requires k < n
    ensures LittleEndian(v, n)[k] == Byte(v, k)
  {
    if k > 0 {
      LittleEndianAt(v / 256, n - 1, k - 1);
    }
  }

  lemma {:induction false} FourBytes(v: nat)
    requires v < 0x8000_0000
    ensures DecToHex(v, 4) == [Byte(v, 0), Byte(v, 1), Byte(v, 2), Byte(v, 3)]
  {
    assert Word(v) == v;
    hide Byte, LittleEndian;
    LittleEndianAt(v, 4, 0);
    LittleEndianAt(v, 4, 1);
    LittleEndianAt(v, 4, 2);
    LittleEndianAt(v, 4, 3);
  }

  lemma {:induction false} TwoBytes(v: nat)
    requires v < 0x1_0000
    ensures DecToHex(v, 2) == [Byte(v, 0), Byte(v, 1)]
  {
    assert Word(v) == v;
    hide Byte, LittleEndian;
    LittleEndianAt(v, 2, 0);
    LittleEndianAt(v, 2, 1);
  }

  lemma {:induction false} EndBytes(n: nat, c: nat, l: nat)
    requires n < 0x1_0000 && c < 0x8000_0000 && l < 0x8000_0000
    ensures DirEnd(n, c, l) == [0x50, 0x4b, 0x05, 0x06, 0, 0, 0, 0, Byte(n, 0), Byte(n, 1), Byte(n, 0), Byte(n, 1),
      Byte(c, 0), Byte(c, 1), Byte(c, 2), Byte(c, 3), Byte(l, 0), Byte(l, 1), Byte(l, 2), Byte(l, 3), 0, 0]
  {
    TwoBytes(n);
    FourBytes(c);
    FourBytes(l);
    hide DecToHex, Byte;
  }

  /** A number below 2^31 from its bytes. */
  lemma {:induction false} Assembled(v: nat)
    requires v < 0x8000_0000
    ensures v == Byte(v, 0) + 0x100 * Byte(v, 1) + 0x1_0000 * Byte(v, 2) + 0x100_0000 * Byte(v, 3)
  {
    var a := v / 256;
    var b := a / 256;
    assert Byte(v, 1) == Byte(a, 0) && Byte(v, 2) == Byte(a, 1) == Byte(b, 0) && Byte(v, 3) == Byte(a, 2) == Byte(b, 1);
    assert Byte(b, 1) == Byte(b / 256, 0) == b / 256;
  }

  lemma {:induction false} LowBytes(v: nat)
    requires v < 0x8000_0000
    ensures v % 256 == Byte(v, 0) && v % 0x1_0000 == Byte(v, 0) + 0x100 * Byte(v, 1)
    ensures v % 0x100_0000 == Byte(v, 0) + 0x100 * Byte(v, 1) + 0x1_0000 * Byte(v, 2)
  {
    Assembled(v);
    hide Byte;
  }

  lemma {:induction false} HighBytes(v: nat)
    requires v < 0x8000_0000
    ensures v / 256 == Byte(v, 1) + 0x100 * Byte(v, 2) + 0x1_0000 * Byte(v, 3)
    ensures v / 0x1_0000 == Byte(v, 2) + 0x100 * Byte(v, 3) && v / 0x100_0000 == Byte(v, 3)
  {
    Assembled(v);
    hide Byte;
  }

  /** The signature begins in the number of files, in the central size or in the offset. */
  predicate MaskedBytes(n: nat, c: nat, l: nat) {
    || (Byte(n, 0) == 0x50 && Byte(n, 1) == 0x4B && Byte(c, 0) == 0x05 && Byte(c, 1) == 0x06)
    || (Byte(n, 1) == 0x50 && Byte(c, 0) == 0x4B && Byte(c, 1) == 0x05 && Byte(c, 2) == 0x06)
    || (Byte(c, 0) == 0x50 && Byte(c, 1) == 0x4B && Byte(c, 2) == 0x05 && Byte(c, 3) == 0x06)
    || (Byte(c, 1) == 0x50 && Byte(c, 2) == 0x4B && Byte(c, 3) == 0x05 && Byte(l, 0) == 0x06)
    || (Byte(c, 2) == 0x50 && Byte(c, 3) == 0x4B && Byte(l, 0) == 0x05 && Byte(l, 1) == 0x06)
    || (Byte(c, 3) == 0x50 && Byte(l, 0) == 0x4B && Byte(l, 1) == 0x05 && Byte(l, 2) == 0x06)
    || (Byte(l, 0) == 0x50 && Byte(l, 1) == 0x4B && Byte(l, 2) == 0x05 && Byte(l, 3) == 0x06)
  }

  lemma {:induction false} MaskedNumbersBytes(n: nat, c: nat, l: nat)
    requires n < 0x1_0000 && c < 0x8000_0000 && l < 0x8000_0000
    ensures MaskedNumbers(n, c, l) <==> MaskedBytes(n, c, l)
  {
    LowBytes(n);
    HighBytes(n);
    LowBytes(c);
    HighBytes(c);
    Assembled(c);
    LowBytes(l);
    Assembled(l);
    hide Byte;
  }

  predicate SignatureAt(s: seq<byte>, k: int) {
    0 <= k && k + 4 <= |s| && s[k] == 0x50 && s[k + 1] == 0x4b && s[k + 2] == 0x05 && s[k + 3] == 0x06
  }

  lemma {:induction false} SignatureBytes(s: seq<byte>, k: int)
    ensures At(s, k, EndSignature()) <==> SignatureAt(s, k)
  {
    if 0 <= k && k + 4 <= |s| {
      assert s[k..k + 4] == [s[k], s[k + 1], s[k + 2], s[k + 3]];
    }
  }

  /** The end record, byte by byte. */
  predicate IsEnd(s: seq<byte>, n: nat, c: nat, l: nat) {
    && |s| == 22 && s[0] == 0x50 && s[1] == 0x4b && s[2] == 0x05 && s[3] == 0x06
    && s[4] == s[5] == s[6] == s[7] == s[20] == s[21] == 0
    && s[8] == s[10] == Byte(n, 0) && s[9] == s[11] == Byte(n, 1)
    && s[12] == Byte(c, 0) && s[13] == Byte(c, 1) && s[14] == Byte(c, 2) && s[15] == Byte(c, 3)
    && s[16] == Byte(l, 0) && s[17] == Byte(l, 1) && s[18] == Byte(l, 2) && s[19] == Byte(l, 3)
  }

  lemma {:induction false} SecondSignature(s: seq<byte>, n: nat, c: nat, l: nat, k: int)
    requires IsEnd(s, n, c, l) && 0 < k && SignatureAt(s, k)
    ensures MaskedBytes(n, c, l)
  {
    hide Byte;
  }

  lemma {:induction false} MaskedAt(s: seq<byte>, n: nat, c: nat, l: nat) returns (k: int)
    requires IsEnd(s, n, c, l) && MaskedBytes(n, c, l)
    ensures 0 < k && SignatureAt(s, k)
  {
    hide Byte;
    k := if SignatureAt(s, 10) then 10 else if SignatureAt(s, 11) then 11 else if SignatureAt(s, 12) then 12
      else if SignatureAt(s, 13) then 13 else if SignatureAt(s, 14) then 14 else if SignatureAt(s, 15) then 15 else 16;
  }

  /** Exactly which numbers make the end record ambiguous. */
  lemma {:induction false} MaskedIff(n: nat, c: nat, l: nat)
    requires n < 0x1_0000 && c < 0x8000_0000 && l < 0x8000_0000
    ensures Masked(n, c, l) <==> MaskedNumbers(n, c, l)
  {
    var s := DirEnd(n, c, l);
    assert IsEnd(s, n, c, l) by { EndBytes(n, c, l); }
    hide DirEnd, IsEnd, MaskedNumbers, MaskedBytes, At, SignatureAt;
    MaskedNumbersBytes(n, c, l);
    if MaskedBytes(n, c, l) {
      var k := MaskedAt(s, n, c, l);
      SignatureBytes(s, k);
    }
    if Masked(n, c, l) {
      var k :| 0 < k && At(s, k, EndSignature());
      SignatureBytes(s, k);
      SecondSignature(s, n, c, l, k);
    }
  }

  /** Archives of fewer than 19280 files and less than 80 MB are never ambiguous. */
  lemma {:induction false} SmallIsUnmasked(n: nat, c: nat, l: nat)
    requires n < 19280 && c + l < 80_000_000
    ensures !Masked(n, c, l)
  {
    MaskedIff(n, c, l);
  }
}
