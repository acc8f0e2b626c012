/** The archive object: a map from names to files that is written to bytes and loaded from them. */
module ZipArchive {
  import opened Bits
  import opened Options
  import opened ZipFormat
  import opened ZipWriter
  import opened ZipReader

  /** A name as character codes. */
  type Name = seq<int>

  const SLASH := 47

  datatype File = File(content: seq<byte>, dir: bool)

  /** The conversions of names, and what the records hold besides: times, dates and checksums. */
  datatype Settings = Settings(encode: Name -> seq<byte>, decode: seq<byte> -> Name, time: Name -> int,
    date: Name -> int, crc: seq<byte> -> int)

  /** Decoding undoes encoding. */
  ghost predicate Inverse(s: Settings) {
    forall n :: s.decode(s.encode(n)) == n
  }

  // ---------------------------------------------------------------------------------------------
  // Folders

  function EndsInSlash(path: Name): bool {
    path != [] && path[|path| - 1] == SLASH
  }

  function LastSlash(path: Name): (i: int)
    ensures -1 <= i < |path| && (i >= 0 ==> path[i] == SLASH)
    ensures forall j :: i < j < |path| ==> path[j] != SLASH
  {
    if path == [] then -1 else if path[|path| - 1] == SLASH then |path| - 1 else LastSlash(path[..|path| - 1])
  }

  /** The folder a path lies in, without its slash; empty at the top. */
  function ParentFolder(path: Name): (parent: Name)
    ensures parent != [] ==> |parent| + 1 < |path|
  {
    var trimmed := if EndsInSlash(path) then path[..|path| - 1] else path;
    var lastSlash := LastSlash(trimmed);
    if lastSlash > 0 then trimmed[..lastSlash] else []
  }

  /** The name with one slash at its end. */
  function FolderName(name: Name): (folder: Name)
    ensures EndsInSlash(folder) && (EndsInSlash(name) ==> folder == name)
    ensures |name| <= |folder| <= |name| + 1 && folder[..|name|] == name
  {
    if EndsInSlash(name) then name else name + [SLASH]
  }

  /** The name `__proto__`: assigning to it sets the prototype of the object that holds the files. */
  function Proto(): Name {
    [95, 95, 112, 114, 111, 116, 111, 95, 95]
  }

  /** The name `hasOwnProperty`: a file of this name hides the method that visiting the files calls. */
  function HasOwn(): Name {
    [104, 97, 115, 79, 119, 110, 80, 114, 111, 112, 101, 114, 116, 121]
  }

  /** The files after adding one, with the folders it lies in; one named `__proto__` is lost. */
  function Added(files: map<Name, File>, name: Name, file: File): map<Name, File>
    decreases |name|, 0
  {
    var parent := ParentFolder(name);
    var before := if parent != [] then FolderAdded(files, parent) else files;
    if name == Proto() then before else before[name := file]
  }

  lemma {:induction false} ProtoIsLost(files: map<Name, File>, file: File)
    ensures Added(files, Proto(), file) == files
  {
    assert LastSlash(Proto()) == -1 by { NoSlash(Proto()); }
  }

  lemma {:induction false} NoSlash(path: Name)
    requires SLASH !in path
    ensures LastSlash(path) == -1
  {
    if path != [] {
      NoSlash(path[..|path| - 1]);
    }
  }

  function FolderAdded(files: map<Name, File>, name: Name): map<Name, File>
    decreases |FolderName(name)|, 1
  {
    if FolderName(name) in files then files else Added(files, FolderName(name), File([], true))
  }

  predicate HasParent(files: map<Name, File>, name: Name) {
    ParentFolder(name) == [] || FolderName(ParentFolder(name)) in files
  }

  /** Every file lies in a folder of the archive. */
  ghost predicate Closed(files: map<Name, File>) {
    forall n :: n in files ==> HasParent(files, n)
  }

  lemma {:induction false} AddedClosed(files: map<Name, File>, name: Name, file: File)
    requires Closed(files)
    ensures Closed(Added(files, name, file)) && (Proto() !in files ==> Proto() !in Added(files, name, file))
    ensures name != Proto() ==> name in Added(files, name, file)
    decreases |name|, 0
  {
    var parent := ParentFolder(name);
    if parent != [] {
      FolderAddedClosed(files, parent);
    }
  }

  /** The slash at `i` ends the name of a folder that `name` lies in. */
  ghost predicate EndsFolder(name: Name, i: nat) {
    0 < i < |name| - 1 && name[i] == SLASH && name[i - 1] != SLASH
  }

  ghost predicate HasFolders(files: map<Name, File>, name: Name) {
    forall i: nat :: EndsFolder(name, i) ==> name[..i + 1] in files
  }

  /** The folder right above a name has its own folders, if it is not itself the folder that ends at `i`. */
  lemma {:induction false} OneFolderUp(name: Name, i: nat)
    requires EndsFolder(name, i)
    ensures var folder := FolderName(ParentFolder(name));
      && ParentFolder(name) != [] && |folder| < |name| && folder == name[..|folder|] && i < |folder|
      && (folder == name[..i + 1] || EndsFolder(folder, i))
  {
    var trimmed := if EndsInSlash(name) then name[..|name| - 1] else name;
    assert trimmed[i] == SLASH;
    var parent := trimmed[..LastSlash(trimmed)];
    assert parent == name[..|parent|] && name[|parent|] == SLASH && i <= |parent|;
    assert name[..|parent|] + [SLASH] == name[..|parent| + 1];
  }

  /** In a closed archive every file has all the folders that the slashes of its name tell. */
  lemma {:induction false} ClosedHasFolders(files: map<Name, File>, name: Name)
    requires Closed(files) && name in files
    ensures HasFolders(files, name)
    decreases |name|
  {
    forall i: nat | EndsFolder(name, i) ensures name[..i + 1] in files {
      assert HasParent(files, name);
      OneFolderUp(name, i);
      var folder := FolderName(ParentFolder(name));
      if folder != name[..i + 1] {
        ClosedHasFolders(files, folder);
        assert folder[..i + 1] == name[..i + 1];
      }
    }
  }

  /** Adding a file creates every folder that the slashes of its name tell. */
  lemma {:induction false} AddedHasFolders(files: map<Name, File>, name: Name, file: File)
    requires Closed(files)
    ensures HasFolders(Added(files, name, file), name)
  {
    hide Added, Closed;
    AddedClosed(files, name, file);
    if name != Proto() {
      ClosedHasFolders(Added(files, name, file), name);
    } else {
      assert forall i :: 0 <= i < |name| ==> name[i] != SLASH;
    }
  }

  /** `n` is `name` up to one of its inner slashes. */
  ghost predicate IsPrefixFolder(name: Name, n: Name) {
    0 < |n| < |name| && n == name[..|n|] && n[|n| - 1] == SLASH
  }

  /** Adding a file creates nothing but the file and empty folders it lies in, and leaves the others alone. */
  lemma {:induction false} AddedOnly(files: map<Name, File>, name: Name, file: File, n: Name)
    ensures var m := Added(files, name, file);
      && (n in files && n != name ==> n in m && m[n] == files[n])
      && (n in m && n !in files && n != name ==> IsPrefixFolder(name, n) && m[n] == File([], true))
      && (name != Proto() ==> name in m && m[name] == file)
    decreases |name|
  {
    var parent := ParentFolder(name);
    if parent != [] {
      var folder := FolderName(parent);
      ParentIsPrefix(name);
      if folder !in files {
        AddedOnly(files, folder, File([], true), n);
        if n != folder && IsPrefixFolder(folder, n) { assert n == name[..|n|]; }
      }
    }
  }

  lemma {:induction false} ParentIsPrefix(name: Name)
    requires ParentFolder(name) != []
    ensures var folder := FolderName(ParentFolder(name)); IsPrefixFolder(name, folder) && folder != Proto()
  {
    var trimmed := if EndsInSlash(name) then name[..|name| - 1] else name;
    var parent := trimmed[..LastSlash(trimmed)];
    assert parent == name[..|parent|] && name[|parent|] == SLASH;
    assert name[..|parent|] + [SLASH] == name[..|parent| + 1];
    assert Proto()[|Proto()| - 1] != SLASH;
  }

  lemma {:induction false} FolderAddedClosed(files: map<Name, File>, name: Name)
    requires Closed(files)
    ensures Closed(FolderAdded(files, name)) && FolderName(name) in FolderAdded(files, name)
    ensures Proto() !in files ==> Proto() !in FolderAdded(files, name)
    decreases |FolderName(name)|, 1
  {
    if FolderName(name) !in files {
      AddedClosed(files, FolderName(name), File([], true));
    }
  }

  /** Adding a file of a closed archive to a part of it adds no other names and changes no other file. */
  lemma {:induction false} AddedWithin(files: map<Name, File>, all: map<Name, File>, name: Name, file: File)
    requires Closed(all) && files.Keys <= all.Keys && name in all
    ensures var m := Added(files, name, file);
      m.Keys <= all.Keys && forall n :: n in files && n != name ==> n in m && m[n] == files[n]
    decreases |name|, 0
  {
    var parent := ParentFolder(name);
    assert HasParent(all, name);
    if parent != [] {
      FolderAddedWithin(files, all, parent);
    }
  }

  lemma {:induction false} FolderAddedWithin(files: map<Name, File>, all: map<Name, File>, name: Name)
    requires Closed(all) && files.Keys <= all.Keys && FolderName(name) in all
    ensures var m := FolderAdded(files, name);
      m.Keys <= all.Keys && forall n :: n in files ==> n in m && m[n] == files[n]
    decreases |FolderName(name)|, 1
  {
    if FolderName(name) !in files {
      AddedWithin(files, all, FolderName(name), File([], true));
    }
  }

  // ---------------------------------------------------------------------------------------------
  // Files and records

  function PartOf(s: Settings, name: Name, file: File): Part {
    var encoded := s.encode(name);
    var data := if file.dir then [] else file.content;
    Part(encoded, encoded != name, data, file.dir, s.time(name), s.date(name), s.crc(file.content))
  }

  /** What the generator writes about the files, in the order of their names. */
  function Parts(s: Settings, names: seq<Name>, files: map<Name, File>): seq<Part>
    requires forall n :: n in names ==> n in files
  {
    if names == [] then []
    else Parts(s, names[..|names| - 1], files) + [PartOf(s, names[|names| - 1], files[names[|names| - 1]])]
  }

  lemma {:induction false} PartsAt(s: Settings, names: seq<Name>, files: map<Name, File>, k: nat)
    requires k < |names| && forall n :: n in names ==> n in files
    ensures |Parts(s, names, files)| == |names| && Parts(s, names, files)[k] == PartOf(s, names[k], files[names[k]])
    decreases |names|
  {
    hide PartOf;
    if k < |names| - 1 {
      PartsAt(s, names[..|names| - 1], files, k);
    } else if k > 0 {
      PartsAt(s, names[..|names| - 1], files, k - 1);
    } else {
      assert Parts(s, names[..0], files) == [];
    }
  }

  function NameOf(s: Settings, l: Loaded): Name {
    if l.utf8 then s.decode(l.fileName) else l.fileName
  }

  lemma {:induction false} LoadedBack(s: Settings, name: Name, file: File)
    requires Inverse(s) && (file.dir ==> file.content == [])
    ensures var l := LoadedOf(PartOf(s, name, file)); NameOf(s, l) == name && File(l.content, l.dir) == file
  {
  }

  lemma {:induction false} AllLoadedAt(ps: seq<Part>, n: nat, k: nat)
    requires k < n <= |ps|
    ensures |AllLoaded(ps, n)| == n && AllLoaded(ps, n)[k] == LoadedOf(ps[k])
  {
    if k < n - 1 {
      AllLoadedAt(ps, n - 1, k);
    } else if k > 0 {
      AllLoadedAt(ps, n - 1, k - 1);
    } else {
      assert AllLoaded(ps, 0) == [];
    }
  }

  // ---------------------------------------------------------------------------------------------
  // The order in which the properties of an object are visited

  function Decimal(name: Name): Option<nat> {
    if name == [] then Some(0)
    else
      var d, c := Decimal(name[..|name| - 1]), name[|name| - 1];
      if d.Some? && 48 <= c <= 57 then Some(10 * d.value + (c - 48)) else None
  }

  /** The number below 2^32 - 1 that a name is the decimal form of. */
  function IndexOf(name: Name): Option<nat> {
    var v := if name == [] || (name[0] == 48 && |name| > 1) then None else Decimal(name);
    if v.Some? && v.value < 0xFFFF_FFFF then v else None
  }

  /** The decimal form of a number. */
  ghost function InDecimal(v: nat): (name: Name)
    ensures |name| > 0 && (v > 0 ==> name[0] != 48) && (v == 0 ==> name == [48])
  {
    if v < 10 then [48 + v] else InDecimal(v / 10) + [48 + v % 10]
  }

  lemma {:induction false} DecimalOfNumber(v: nat)
    ensures Decimal(InDecimal(v)) == Some(v)
    ensures v >= 10 ==> |InDecimal(v)| > 1
  {
    var name := InDecimal(v);
    if v < 10 {
      assert name[..0] == [] && Decimal([]) == Some(0);
    } else {
      DecimalOfNumber(v / 10);
      assert name[..|name| - 1] == InDecimal(v / 10);
    }
  }

  lemma {:induction false} DecimalIsNumber(name: Name)
    requires name != [] && (name[0] != 48 || |name| == 1) && Decimal(name).Some?
    ensures name == InDecimal(Decimal(name).value)
  {
    var rest, c := name[..|name| - 1], name[|name| - 1];
    if |name| == 1 {
      assert rest == [] && Decimal([]) == Some(0);
    } else {
      DecimalIsNumber(rest);
      var d := Decimal(rest).value;
      assert rest[0] == name[0] != 48;
      assert (10 * d + (c - 48)) / 10 == d && (10 * d + (c - 48)) % 10 == c - 48;
    }
    assert name == rest + [c];
  }

  /** The names that are visited as numbers are the decimal forms of the numbers below 2^32 - 1. */
  lemma {:induction false} IndexIsNumber(name: Name, v: nat)
    ensures IndexOf(name) == Some(v) <==> v < 0xFFFF_FFFF && name == InDecimal(v)
  {
    DecimalOfNumber(v);
    if name != [] && (name[0] != 48 || |name| == 1) && Decimal(name).Some? {
      DecimalIsNumber(name);
    }
    hide Decimal, InDecimal;
  }

  /** The name `a` is visited before `b`, whichever was added first. */
  predicate Precedes(a: Name, b: Name) {
    IndexOf(a).Some? && (IndexOf(b).Some? ==> IndexOf(a).value < IndexOf(b).value)
  }

  /** Numbers come first and in ascending order; the other names follow as they were added. */
  function Placed(names: seq<Name>, name: Name): seq<Name> {
    if names == [] || Precedes(name, names[0]) then [name] + names else [names[0]] + Placed(names[1..], name)
  }

  /** Before a number stand only numbers, and no larger ones. */
  ghost predicate VisitingOrder(names: seq<Name>) {
    forall i, j :: 0 <= i < j < |names| && IndexOf(names[j]).Some? ==>
      IndexOf(names[i]).Some? && IndexOf(names[i]).value <= IndexOf(names[j]).value
  }

  lemma {:induction false} PlacedInOrder(names: seq<Name>, name: Name)
    requires VisitingOrder(names)
    ensures VisitingOrder(Placed(names, name))
    ensures forall n :: n in Placed(names, name) <==> n in names || n == name
  {
    hide IndexOf;
    if names != [] && !Precedes(name, names[0]) {
      var rest := Placed(names[1..], name);
      PlacedInOrder(names[1..], name);
      forall n | n in rest && IndexOf(n).Some?
        ensures IndexOf(names[0]).Some? && IndexOf(names[0]).value <= IndexOf(n).value
      {
        if n != name {
          assert exists j :: 1 <= j < |names| && names[j] == n;
        }
      }
      assert names == [names[0]] + names[1..];
    }
  }

  /** Where the new name is put; the others keep their order, and what is not a number comes last. */
  lemma {:induction false} PlacedKeeps(names: seq<Name>, name: Name) returns (i: nat)
    ensures i <= |names| && Placed(names, name) == names[..i] + [name] + names[i..]
    ensures IndexOf(name).None? ==> i == |names|
  {
    hide IndexOf;
    if names == [] || Precedes(name, names[0]) {
      i := 0;
    } else {
      i := PlacedKeeps(names[1..], name);
      assert names[1..][..i] == names[1..i + 1] && names[1..][i..] == names[i + 1..];
      i := i + 1;
    }
  }

  /** The names after adding a file: new ones are placed from the outermost folder to the file. */
  function NamesAdded(names: seq<Name>, name: Name): seq<Name>
    decreases |name|, 0
  {
    var parent := ParentFolder(name);
    var before := if parent != [] then FolderNamesAdded(names, parent) else names;
    if name == Proto() || name in before then before else Placed(before, name)
  }

  function FolderNamesAdded(names: seq<Name>, name: Name): seq<Name>
    decreases |FolderName(name)|, 1
  {
    if FolderName(name) in names then names else NamesAdded(names, FolderName(name))
  }

  class JSZip {
    /** The names in the order in which they are visited. */
    var names: seq<Name>
    var files: map<Name, File>

    ghost predicate Valid()
      reads this
    {
      && (forall n :: n in names <==> n in files) && VisitingOrder(names) && Closed(files) && Proto() !in files
      && (forall n :: n in files && files[n].dir ==> files[n].content == [])
    }

    constructor ()
      ensures Valid() && files == map[] && names == []
    {
      names, files := [], map[];
    }

    /** Adds or replaces a file, after the folders it lies in. */
    method FileAdd(name: Name, content: seq<byte>, dir: bool)
      requires Valid()
      modifies this
      ensures Valid() && files == Added(old(files), name, File(if dir then [] else content, dir))
      ensures HasFolders(files, name) && names == NamesAdded(old(names), name)
      decreases |name|, 0
    {
      hide Closed, HasFolders, VisitingOrder, Placed, ParentFolder, FolderAdded, FolderNamesAdded;
      var parent := ParentFolder(name);
      if parent != [] {
        FolderAdd(parent);
      }
      AddedClosed(old(files), name, File(if dir then [] else content, dir));
      AddedHasFolders(old(files), name, File(if dir then [] else content, dir));
      var file := File(if dir then [] else content, dir);
      // assigning to the name `__proto__` adds no property
      if name != Proto() {
        if name !in files {
          PlacedInOrder(names, name);
          names := Placed(names, name);
        }
        files := files[name := file];
      }
    }

    method FolderAdd(name0: Name)
      requires Valid()
      modifies this
      ensures Valid() && files == FolderAdded(old(files), name0) && names == FolderNamesAdded(old(names), name0)
      decreases |FolderName(name0)|, 1
    {
      var name := FolderName(name0);
      if name !in files {
        FileAdd(name, [], true);
      }
    }

    /** Writes the archive; visiting the files fails if one of them is named `hasOwnProperty`. */
    method Generate(s: Settings) returns (zip: Option<seq<byte>>)
      requires Valid()
      ensures zip == if HasOwn() in files then None else Some(Archive(Parts(s, names, files)))
    {
      hide Archive, PartOf;
      var parts: seq<Part> := [];
      var i := 0;
      assert Parts(s, names[..0], files) == [];
      while i < |names|
        invariant 0 <= i <= |names| && parts == Parts(s, names[..i], files)
        invariant i > 0 ==> HasOwn() !in files
      {
        if HasOwn() in files {
          return None;
        }
        assert names[..i + 1][..i] == names[..i];
        parts := parts + [PartOf(s, names[i], files[names[i]])];
        i := i + 1;
      }
      assert names[..i] == names;
      var bytes := ZipWriter.Generate(parts);
      zip := Some(bytes);
    }

    /** Adds the entries of an archive. */
    method AddAll(s: Settings, entries: seq<Loaded>, ghost all: map<Name, File>, ghost allNames: seq<Name>)
      requires Valid()
      modifies this
      ensures Valid()
      ensures old(files) == map[] && Describe(s, entries, all, allNames) ==> files == all
    {
      ghost var known := files == map[] && Describe(s, entries, all, allNames);
      if known {
        RestoredNone(s, entries, all, allNames);
      }
      hide Describe, Restored, Added, Closed, NameOf;
      var i := 0;
      while i < |entries|
        invariant 0 <= i <= |entries| && Valid()
        invariant known ==> Restored(files, all, allNames, i)
      {
        var input := entries[i];
        if known {
          RestoredNext(s, entries, files, all, allNames, i);
        }
        FileAdd(NameOf(s, input), input.content, input.dir);
        i := i + 1;
      }
      if known {
        RestoredAll(s, entries, files, all, allNames);
      }
    }

    /** Loads an archive. */
    method Load(s: Settings, data: seq<byte>, ghost from: JSZip) returns (ok: bool)
      requires Valid() && from.Valid() && from != this
      modifies this
      ensures Valid() && (!ok ==> files == old(files))
      ensures Inverse(s) && old(files) == map[] && Holds(s, from.names, from.files, data) ==>
        (ok <==> !Ambiguous(s, from.names, from.files)) && (ok ==> files == from.files)
    {
      ghost var known := Inverse(s) && Holds(s, from.names, from.files, data);
      ghost var ps := Parts(s, from.names, from.files);
      var entries := LoadEntries(data, ps);
      if known {
        EntriesDescribe(s, from.names, from.files);
      }
      hide Holds, Ambiguous, Describe, Parts, AllLoaded, Inverse, Archive, Storable, Masked;
      ok := entries.Some?;
      if ok {
        AddAll(s, entries.value, from.files, from.names);
      }
    }
  }

  /** The data is the archive of these files, and they can be stored. */
  ghost predicate Holds(s: Settings, names: seq<Name>, files: map<Name, File>, data: seq<byte>)
    requires forall n :: n in names ==> n in files
  {
    Storable(Parts(s, names, files)) && data == Archive(Parts(s, names, files))
  }

  /** The end record of the archive contains its own signature a second time. */
  ghost predicate Ambiguous(s: Settings, names: seq<Name>, files: map<Name, File>)
    requires forall n :: n in names ==> n in files
  {
    var ps := Parts(s, names, files);
    Masked(|ps|, |Centrals(ps, 0)|, |Locals(ps)|)
  }

  /**
   An archive of a single file is ambiguous exactly when its name and content together have 101010226 bytes: the
   central directory then begins at the number whose bytes are the signature.
   */
  lemma {:induction false} AmbiguousFile(s: Settings, name: Name, content: seq<byte>)
    requires |s.encode(name)| < 0x1_0000 && 30 + |s.encode(name)| + |content| < 0x8000_0000
    ensures var files := map[name := File(content, false)];
      && Storable(Parts(s, [name], files))
      && (Ambiguous(s, [name], files) <==> |s.encode(name)| + |content| == 101_010_226)
  {
    var p := PartOf(s, name, File(content, false));
    var files := map[name := File(content, false)];
    assert [name][..0] == [];
    assert Parts(s, [name], files) == [p] by { assert Parts(s, [], files) == []; }
    OnePart(p);
    MaskedIff(1, 46 + |p.name|, 30 + |p.name| + |p.data|);
    hide Parts;
  }

  lemma {:induction false} OnePart(p: Part)
    ensures |Locals([p])| == 30 + |p.name| + |p.data| && |Centrals([p], 0)| == 46 + |p.name|
  {
    assert [p][1..] == [];
    assert Locals([p][1..]) == [];
    assert Centrals([p][1..], 0 + |Local(p)|) == [];
  }

  /** The entries are these files, in the order of the names. */
  ghost predicate Describe(s: Settings, entries: seq<Loaded>, all: map<Name, File>, names: seq<Name>) {
    && |entries| == |names| && Closed(all) && Proto() !in all && (forall n :: n in names <==> n in all)
    && forall k :: 0 <= k < |names| ==> NameOf(s, entries[k]) == names[k] && LoadedFile(entries[k]) == all[names[k]]
  }

  function LoadedFile(l: Loaded): File {
    File(if l.dir then [] else l.content, l.dir)
  }

  lemma {:induction false} EntriesDescribe(s: Settings, names: seq<Name>, files: map<Name, File>)
    requires Inverse(s) && Closed(files) && Proto() !in files && (forall n :: n in names <==> n in files)
    requires forall n :: n in files && files[n].dir ==> files[n].content == []
    ensures var ps := Parts(s, names, files); Describe(s, AllLoaded(ps, |ps|), files, names)
  {
    var ps := Parts(s, names, files);
    if names == [] {
      assert ps == [] && AllLoaded(ps, 0) == [];
    } else {
      PartsAt(s, names, files, 0);
      AllLoadedAt(ps, |ps|, 0);
    }
    hide Parts, AllLoaded, PartOf, LoadedOf, Closed, NameOf;
    forall k | 0 <= k < |names|
      ensures NameOf(s, AllLoaded(ps, |ps|)[k]) == names[k] && LoadedFile(AllLoaded(ps, |ps|)[k]) == files[names[k]]
    {
      PartsAt(s, names, files, k);
      AllLoadedAt(ps, |ps|, k);
      LoadedBack(s, names[k], files[names[k]]);
    }
  }

  /** The files of the first `i` names are back, and there are no others but files of the archive. */
  ghost predicate Restored(files: map<Name, File>, all: map<Name, File>, names: seq<Name>, i: nat) {
    && i <= |names| && files.Keys <= all.Keys
    && forall k :: 0 <= k < i ==> names[k] in files && names[k] in all && files[names[k]] == all[names[k]]
  }

  lemma {:induction false} RestoredNone(s: Settings, entries: seq<Loaded>, all: map<Name, File>, names: seq<Name>)
    requires Describe(s, entries, all, names)
    ensures Restored(map[], all, names, 0)
  {
  }

  lemma {:induction false} RestoredAll(s: Settings, entries: seq<Loaded>, files: map<Name, File>, all: map<Name, File>,
      names: seq<Name>)
    requires Describe(s, entries, all, names) && Restored(files, all, names, |entries|)
    ensures files == all
  {
    hide Closed, NameOf, LoadedFile;
    forall n | n in all ensures n in files && files[n] == all[n] {
      assert n in names;
    }
  }

  lemma {:induction false} RestoredNext(s: Settings, entries: seq<Loaded>, files: map<Name, File>, all: map<Name, File>,
      names: seq<Name>, i: nat)
    requires i < |entries| && Describe(s, entries, all, names) && Restored(files, all, names, i)
    ensures Restored(Added(files, NameOf(s, entries[i]), LoadedFile(entries[i])), all, names, i + 1)
  {
    hide *;
    DescribeAt(s, entries, all, names, i);
    RestoredWithin(files, all, names, i);
    AddedWithin(files, all, names[i], LoadedFile(entries[i]));
    AddedLast(files, names[i], LoadedFile(entries[i]));
    RestoredExtend(files, Added(files, names[i], LoadedFile(entries[i])), all, names, i);
  }

  lemma {:induction false} DescribeAt(s: Settings, entries: seq<Loaded>, all: map<Name, File>, names: seq<Name>, i: nat)
    requires i < |entries| && Describe(s, entries, all, names)
    ensures i < |names| && names[i] in all && Closed(all) && names[i] != Proto()
    ensures NameOf(s, entries[i]) == names[i] && LoadedFile(entries[i]) == all[names[i]]
  {
    assert names[i] in names;
    hide Closed, NameOf, LoadedFile;
  }

  lemma {:induction false} RestoredWithin(files: map<Name, File>, all: map<Name, File>, names: seq<Name>, i: nat)
    requires Restored(files, all, names, i)
    ensures files.Keys <= all.Keys
  {
  }

  lemma {:induction false} RestoredExtend(files: map<Name, File>, more: map<Name, File>, all: map<Name, File>,
      names: seq<Name>, i: nat)
    requires i < |names| && Restored(files, all, names, i) && more.Keys <= all.Keys
    requires forall n :: n in files && n != names[i] ==> n in more && more[n] == files[n]
    requires names[i] in more && names[i] in all && more[names[i]] == all[names[i]]
    ensures Restored(more, all, names, i + 1)
  {
  }

  lemma {:induction false} AddedLast(files: map<Name, File>, name: Name, file: File)
    requires name != Proto()
    ensures name in Added(files, name, file) && Added(files, name, file)[name] == file
  {
  }

  /**
   Writing an archive and loading it into an empty one gives back every file, exactly unless one of them is named
   `hasOwnProperty`, when writing fails, or the end record is ambiguous, when loading fails.
   */
  method GenerateThenLoad(zip: JSZip, s: Settings) returns (copy: JSZip, ok: bool)
    requires zip.Valid() && Inverse(s) && Storable(Parts(s, zip.names, zip.files))
    ensures fresh(copy)
    ensures ok <==> HasOwn() !in zip.files && !Ambiguous(s, zip.names, zip.files)
    ensures ok ==> copy.files == zip.files
  {
    var data := zip.Generate(s);
    copy := new JSZip();
    hide Archive, Storable, Parts, Ambiguous, Inverse;
    ok := data.Some?;
    if ok {
      ok := copy.Load(s, data.value, zip);
    }
  }

  /** The archive of one file of 101010225 bytes with a name of one byte cannot be loaded. */
  method LostArchive(s: Settings, name: Name, content: seq<byte>) returns (zip: JSZip, ok: bool)
    requires Inverse(s) && ParentFolder(name) == [] && name != Proto() && name != HasOwn()
    requires |s.encode(name)| == 1 && |content| == 101_010_225
    ensures fresh(zip) && zip.files == map[name := File(content, false)] && !ok
  {
    zip := new JSZip();
    zip.FileAdd(name, content, false);
    AmbiguousFile(s, name, content);
    assert zip.names == [name];
    assert zip.files == map[name := File(content, false)];
    hide Storable, Parts, Ambiguous, Inverse, JSZip.Valid;
    var copy;
    copy, ok := GenerateThenLoad(zip, s);
  }
}
