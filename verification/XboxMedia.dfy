/** Opening and reading the files of a disc image. */
module XboxMedia {
  import opened Words
  import opened Xdvdfs

  // ---- Spellings of a path ----

  lemma FoldedTwice(path: string)
    ensures Folded(Folded(path)) == Folded(path)
  {
  }

  predicate IsSuffix(part: string, whole: string) {
    |part| <= |whole| && part == whole[|whole| - |part|..]
  }

  lemma SuffixOfSuffix(a: string, b: string, c: string)
    requires IsSuffix(a, b) && IsSuffix(b, c)
    ensures IsSuffix(a, c)
  {
    assert forall i | 0 <= i < |a| :: a[i] == b[|b| - |a| + i] == c[|c| - |a| + i];
  }

  lemma {:induction false} SkipSlashesSuffix(path: string)
    ensures IsSuffix(SkipSlashes(path), path)
    ensures SkipSlashes(path) == "" || SkipSlashes(path)[0] != '/'
    decreases |path|
  {
    if path != "" && path[0] == '/' {
      SkipSlashesSuffix(path[1..]);
      SuffixOfSuffix(SkipSlashes(path[1..]), path[1..], path);
    }
  }

  lemma SkipDriveSuffix(path: string)
    ensures IsSuffix(SkipDrive(path), path)
  {
  }

  lemma NormalizedSuffix(path: string)
    ensures IsSuffix(Normalized(path), Folded(path))
    ensures Normalized(path) == "" || Normalized(path)[0] != '/'
  {
    var folded := Folded(path);
    var start := SkipSlashes(folded);
    var bare := SkipDrive(start);
    hide IsSuffix, SkipSlashes, SkipDrive, Folded;
    SkipSlashesSuffix(folded);
    SkipDriveSuffix(start);
    SkipSlashesSuffix(bare);
    SuffixOfSuffix(bare, start, folded);
    SuffixOfSuffix(SkipSlashes(bare), bare, folded);
  }

  predicate HasDrive(path: string) {
    |path| >= 2 && path[1] == ':'
  }

  lemma NormalizedAgain(path: string)
    ensures Folded(Normalized(path)) == Normalized(path)
  {
    NormalizedSuffix(path);
    FoldedTwice(path);
    var n := Normalized(path);
    var folded := Folded(path);
    forall i | 0 <= i < |n| ensures Folded(n)[i] == n[i] {
      var j := |path| - |n| + i;
      assert n[i] == folded[j] && Folded(folded)[j] == folded[j];
    }
  }

  /** The path as it is given, behind its leading slashes of either kind. */
  function BehindSlashes(path: string): string {
    if path != "" && (path[0] == '/' || path[0] == '\\') then BehindSlashes(path[1..]) else path
  }

  lemma {:induction false} FoldedBehind(path: string)
    ensures SkipSlashes(Folded(path)) == Folded(BehindSlashes(path))
    decreases |path|
  {
    if path != "" {
      assert Folded(path)[1..] == Folded(path[1..]);
      if path[0] == '/' || path[0] == '\\' {
        FoldedBehind(path[1..]);
      }
    }
  }

  /** A drive, and behind it and further slashes another one. */
  predicate TwoDrives(path: string) {
    var first := BehindSlashes(path);
    HasDrive(first) && HasDrive(BehindSlashes(first[2..]))
  }

  lemma NormalizedHasDrive(path: string)
    ensures HasDrive(Normalized(path)) <==> TwoDrives(path)
  {
    var first := BehindSlashes(path);
    FoldedBehind(path);
    assert HasDrive(Folded(first)) <==> HasDrive(first);
    if HasDrive(first) {
      assert Folded(first)[2..] == Folded(first[2..]);
      FoldedBehind(first[2..]);
    } else {
      SkipSlashesSuffix(Folded(path));
    }
  }

  /** Normalising a normalised path changes nothing, unless the path names two drives in a row. */
  lemma NormalizedTwiceIff(path: string)
    ensures Normalized(Normalized(path)) == Normalized(path) <==> !TwoDrives(path)
  {
    NormalizedHasDrive(path);
    NormalizedAgain(path);
    NormalizedSuffix(path);
    var n := Normalized(path);
    assert SkipSlashes(n) == n;
    if HasDrive(n) {
      SkipSlashesSuffix(n[2..]);
    }
  }

  /** One path with two drives: each normalising takes one off. */
  lemma TwoDrivesShrink()
    ensures Normalized("a:b:c") == "b:c" && Normalized("b:c") == "c"
  {
    assert Folded("a:b:c") == "a:b:c" && "a:b:c"[2..] == "b:c";
    assert Folded("b:c") == "b:c" && "b:c"[2..] == "c";
  }

  /** Case, the kind of slash, leading slashes and a drive letter do not matter to which path is meant. */
  lemma SpellingsMeet(spelling: string, drive: char)
    requires var p := Folded(spelling); (p == "" || p[0] != '/') && !HasDrive(p)
    requires drive != '/' && drive != '\\'
    ensures Normalized(spelling) == Normalized("\\" + spelling) == Normalized([drive] + ":\\" + spelling)
      == Folded(spelling)
  {
    BareSpelling(Folded(spelling));
    DriveSpelling(Folded(spelling), LowerByte(drive));
    FoldedSpellings(spelling, drive);
    hide Folded, SkipSlashes, SkipDrive, LowerByte;
  }

  lemma FoldedSpellings(spelling: string, drive: char)
    requires drive != '/' && drive != '\\'
    ensures Folded("\\" + spelling) == "/" + Folded(spelling)
    ensures Folded([drive] + ":\\" + spelling) == [LowerByte(drive)] + ":/" + Folded(spelling)
    ensures LowerByte(drive) != '/'
  {
  }

  lemma BareSpelling(p: string)
    requires (p == "" || p[0] != '/') && !HasDrive(p)
    ensures SkipSlashes(SkipDrive(SkipSlashes(p))) == p
    ensures SkipSlashes(SkipDrive(SkipSlashes("/" + p))) == p
  {
    assert ("/" + p)[1..] == p;
  }

  lemma DriveSpelling(p: string, drive: char)
    requires (p == "" || p[0] != '/') && drive != '/'
    ensures SkipSlashes(SkipDrive(SkipSlashes([drive] + ":/" + p))) == p
  {
    var q := [drive] + ":/" + p;
    assert q[2..] == "/" + p;
    assert ("/" + p)[1..] == p;
  }

  // ---- Open files ----

  datatype OpenedFile = OpenedFile(entry: FileEntry, position: int)

  predicate FileValid(file: OpenedFile) {
    0 <= file.entry.start && 0 <= file.entry.size && 0 <= file.position
  }

  datatype Chunk = Chunk(ok: bool, data: seq<Byte>, file: OpenedFile)

  function Read(image: seq<Byte>, file: OpenedFile, size: nat): (r: Chunk)
    requires FileValid(file)
    ensures FileValid(r.file)
  {
    var remaining := if file.entry.size > file.position then file.entry.size - file.position else 0;
    var n := Min(size, remaining);
    if n == 0 then Chunk(true, [], file)
    else
      var data := ReadAt(image, file.entry.start * SECTOR + file.position, n);
      if data.None? then Chunk(false, [], file)
      else Chunk(true, data.value, file.(position := file.position + n))
  }

  datatype Origin = Start | Current | End

  function Seek(file: OpenedFile, distance: int, origin: Origin): (r: Option<OpenedFile>)
    requires FileValid(file)
    ensures r.Some? ==> FileValid(r.value)
  {
    var from := match origin case Start => 0 case Current => file.position case End => file.entry.size;
    if from + distance < 0 then None else Some(file.(position := from + distance))
  }

  /** The image is not cut off before the end of the file. */
  predicate WithinImage(image: seq<Byte>, entry: FileEntry) {
    0 <= entry.start && 0 <= entry.size && entry.start * SECTOR + entry.size <= |image|
  }

  function Content(image: seq<Byte>, entry: FileEntry): (r: seq<Byte>)
    requires WithinImage(image, entry)
    ensures |r| == entry.size
  {
    image[entry.start * SECTOR..entry.start * SECTOR + entry.size]
  }

  /** A file's bytes start at its sector, of 2048 bytes. */
  lemma ContentPlaces(image: seq<Byte>, entry: FileEntry, i: nat)
    requires WithinImage(image, entry) && i < entry.size
    ensures 2048 * entry.start + i < |image| && Content(image, entry)[i] == image[2048 * entry.start + i]
  {
  }

  function Sum(sizes: seq<nat>): nat {
    if sizes == [] then 0 else sizes[0] + Sum(sizes[1..])
  }

  function ReadAll(image: seq<Byte>, file: OpenedFile, sizes: seq<nat>): (r: Chunk)
    requires FileValid(file)
    ensures FileValid(r.file)
    decreases |sizes|
  {
    if sizes == [] then Chunk(true, [], file)
    else
      var first := Read(image, file, sizes[0]);
      if !first.ok then first
      else
        var rest := ReadAll(image, first.file, sizes[1..]);
        Chunk(rest.ok, first.data + rest.data, rest.file)
  }

  /** How far reads get: to the end of the file, or nowhere from behind it. */
  function Reach(file: OpenedFile, amount: nat): int {
    Max(file.position, Min(file.entry.size, file.position + amount))
  }

  lemma SliceOfSlice<T>(s: seq<T>, low: nat, high: nat, from: nat, to: nat)
    requires low <= high <= |s| && from <= to <= high - low
    ensures s[low..high][from..to] == s[low + from..low + to]
  {
    var (part, whole) := (s[low..high][from..to], s[low + from..low + to]);
    assert |part| == |whole|;
    assert forall i | 0 <= i < |part| :: part[i] == s[low + from + i] == whole[i];
  }

  /** The bytes from the position up to `end`, none from behind the end of the file. */
  function Span(image: seq<Byte>, file: OpenedFile, end: int): seq<Byte>
    requires WithinImage(image, file.entry) && 0 <= file.position <= end
    requires file.position <= file.entry.size ==> end <= file.entry.size
  {
    if file.position >= file.entry.size then [] else Content(image, file.entry)[file.position..end]
  }

  lemma ReadIsSlice(image: seq<Byte>, file: OpenedFile, size: nat)
    requires FileValid(file) && WithinImage(image, file.entry)
    ensures var r := Read(image, file, size);
      && r.ok && r.file == file.(position := Reach(file, size))
      && r.data == Span(image, file, Reach(file, size))
  {
    var at := file.entry.start * SECTOR;
    var r := Read(image, file, size);
    var end := Reach(file, size);
    if file.position < file.entry.size {
      SliceOfSlice(image, at, at + file.entry.size, file.position, end);
      if size == 0 {
        assert r.data == [] && Content(image, file.entry)[file.position..end] == [];
      } else {
        assert r.data == image[at + file.position..at + end];
      }
    } else {
      assert r == Chunk(true, [], file);
    }
  }

  lemma ReachAdds(file: OpenedFile, first: nat, rest: nat)
    requires FileValid(file)
    ensures var next := file.(position := Reach(file, first));
      && Reach(next, rest) == Reach(file, first + rest)
      && file.position <= next.position <= Reach(next, rest)
      && (file.position <= file.entry.size ==> Reach(next, rest) <= file.entry.size)
      && (file.entry.size <= file.position ==> next == file == next.(position := Reach(next, rest)))
      && (file.entry.size <= next.position ==> Reach(next, rest) == next.position)
  {
  }

  lemma SpansJoin(image: seq<Byte>, file: OpenedFile, middle: int, end: int)
    requires FileValid(file) && WithinImage(image, file.entry) && file.position <= middle <= end
    requires file.position <= file.entry.size ==> end <= file.entry.size
    requires file.entry.size <= middle ==> end == middle
    ensures Span(image, file, middle) + Span(image, file.(position := middle), end) == Span(image, file, end)
  {
    hide Content;
    if file.position < file.entry.size {
      var content := Content(image, file.entry);
      assert content[file.position..middle] + content[middle..end] == content[file.position..end];
    }
  }

  /** However a file is cut into reads, their data together are the next bytes of the file. */
  lemma {:induction false} ReadsConcatenate(image: seq<Byte>, file: OpenedFile, sizes: seq<nat>)
    requires FileValid(file) && WithinImage(image, file.entry)
    ensures Reach(file, Sum(sizes)) >= file.position
    ensures file.position <= file.entry.size ==> Reach(file, Sum(sizes)) <= file.entry.size
    ensures var r := ReadAll(image, file, sizes);
      && r.ok && r.file == file.(position := Reach(file, Sum(sizes)))
      && r.data == Span(image, file, Reach(file, Sum(sizes)))
    decreases |sizes|
  {
    if sizes == [] {
      ReadIsSlice(image, file, 0);
    } else {
      ReadIsSlice(image, file, sizes[0]);
      ReachAdds(file, sizes[0], Sum(sizes[1..]));
      hide Content, Read, Reach, Span;
      var next := file.(position := Reach(file, sizes[0]));
      ReadsConcatenate(image, next, sizes[1..]);
      SpansJoin(image, file, next.position, Reach(file, Sum(sizes)));
    }
  }

  /** Seeking to any place of the file and reading the rest gives the file from there on. */
  lemma SeekThenRead(image: seq<Byte>, file: OpenedFile, place: nat, size: nat)
    requires FileValid(file) && WithinImage(image, file.entry) && place <= file.entry.size
      && size >= file.entry.size - place
    ensures var sought := Seek(file, place, Start);
      && sought.Some?
      && Read(image, sought.value, size).data == Content(image, file.entry)[place..]
      && Seek(file, place - file.entry.size, End) == sought == Seek(file, place - file.position, Current)
  {
    ReadIsSlice(image, file.(position := place), size);
  }

  // ---- The media object ----

  class XboxMedia {
    const image: seq<Byte>
    var entries: Entries
    var openFiles: map<int, OpenedFile>
    var nextHandle: int

    ghost predicate Valid()
      reads this
    {
      && (forall h | h in openFiles :: FileValid(openFiles[h]))
      && (forall p | p in entries :: 0 <= entries[p].start && 0 <= entries[p].size)
    }

    constructor (image: seq<Byte>)
      ensures Valid() && this.image == image && entries == map[] && openFiles == map[]
    {
      this.image := image;
      entries, openFiles, nextHandle := map[], map[], 0xA000_0000;
    }

    static method Normalize(path: string) returns (r: string)
      ensures r == Normalized(path)
    {
      r := "";
      for i := 0 to |path|
        invariant r == Folded(path)[..i]
      {
        var c := if path[i] == '\\' then '/' else path[i];
        r := r + [LowerByte(c)];
      }
      assert r == Folded(path);
      while r != "" && r[0] == '/'
        invariant SkipSlashes(r) == SkipSlashes(Folded(path))
        decreases |r|
      {
        r := r[1..];
      }
      if |r| >= 2 && r[1] == ':' {
        r := r[2..];
      }
      while r != "" && r[0] == '/'
        invariant SkipSlashes(r) == Normalized(path)
        decreases |r|
      {
        r := r[1..];
      }
    }

    method ParseDirectory(start: nat, size: int, prefix: string, fuel: nat) returns (status: Status)
      requires Valid()
      modifies this`entries
      ensures Valid() && Parsed(status, entries) == Xdvdfs.ParseDirectory(image, start, size, prefix, old(entries),
                                                                          fuel)
      decreases fuel, 1
    {
      status := ParseNode(start * SECTOR, size, 0, prefix, fuel);
    }

    method ParseNode(table: nat, size: int, node: nat, prefix: string, fuel: nat) returns (status: Status)
      requires Valid()
      modifies this`entries
      ensures Valid() && Parsed(status, entries) == Xdvdfs.ParseNode(image, table, size, node, prefix, old(entries),
                                                                     fuel)
      decreases fuel, 0
    {
      hide DirentAt, IsListed, Normalized;
      if fuel == 0 {
        return TooDeep;
      }
      var found := DirentAt(image, table, size, node);
      if found.None? {
        return Malformed;
      }
      var dirent := found.value;
      DirentEntry(image, table, size, node);
      if dirent.left != 0 {
        status := ParseNode(table, size, dirent.left * 4, prefix, fuel - 1);
        if status != Done {
          return;
        }
      }
      var name := Normalize(dirent.name);
      var path := prefix + name;
      if IsListed(path) {
        entries := entries[path := dirent.entry];
      }
      if dirent.entry.directory && dirent.entry.size != 0 && IsListed(path) {
        status := ParseDirectory(dirent.entry.start, dirent.entry.size, path + "/", fuel - 1);
        if status != Done {
          return;
        }
      }
      if dirent.right != 0 {
        status := ParseNode(table, size, dirent.right * 4, prefix, fuel - 1);
        if status != Done {
          return;
        }
      }
      status := Done;
    }

    method OpenFile(path: string) returns (handle: Option<int>)
      requires Valid()
      modifies this`openFiles, this`nextHandle
      ensures Valid()
      ensures handle.Some? <==> Normalized(path) in entries && !entries[Normalized(path)].directory
      ensures handle.None? ==> openFiles == old(openFiles) && nextHandle == old(nextHandle)
      ensures handle.Some? ==>
        && handle.value != 0
        && openFiles == old(openFiles)[handle.value := OpenedFile(entries[Normalized(path)], 0)]
    {
      var key := Normalize(path);
      if key !in entries || entries[key].directory {
        return None;
      }
      var h := nextHandle;
      nextHandle := Wrap(nextHandle + 1);
      if h == 0 {
        h := nextHandle;
        nextHandle := Wrap(nextHandle + 1);
      }
      openFiles := openFiles[h := OpenedFile(entries[key], 0)];
      return Some(h);
    }

    method ReadFile(handle: int, size: nat) returns (ok: bool, data: seq<Byte>)
      requires Valid()
      modifies this`openFiles
      ensures Valid()
      ensures handle !in old(openFiles) ==> !ok && data == [] && openFiles == old(openFiles)
      ensures handle in old(openFiles) ==>
        var r := Read(image, old(openFiles)[handle], size);
        ok == r.ok && data == r.data && openFiles == old(openFiles)[handle := r.file]
    {
      if handle !in openFiles {
        return false, [];
      }
      var file := openFiles[handle];
      var remaining := if file.entry.size > file.position then file.entry.size - file.position else 0;
      var n := Min(size, remaining);
      if n == 0 {
        return true, [];
      }
      var found := ReadAt(image, file.entry.start * SECTOR + file.position, n);
      if found.None? {
        return false, [];
      }
      openFiles := openFiles[handle := file.(position := file.position + n)];
      return true, found.value;
    }

    method SeekFile(handle: int, distance: int, origin: Origin) returns (position: Option<int>)
      requires Valid()
      modifies this`openFiles
      ensures Valid()
      ensures position.None? <==> handle !in old(openFiles) || Seek(old(openFiles)[handle], distance, origin).None?
      ensures position.None? ==> openFiles == old(openFiles)
      ensures position.Some? ==>
        var file := Seek(old(openFiles)[handle], distance, origin).value;
        position.value == file.position && openFiles == old(openFiles)[handle := file]
    {
      if handle !in openFiles {
        return None;
      }
      var file := openFiles[handle];
      var from := match origin case Start => 0 case Current => file.position case End => file.entry.size;
      if from + distance < 0 {
        return None;
      }
      openFiles := openFiles[handle := file.(position := from + distance)];
      return Some(from + distance);
    }

    method CloseFile(handle: int)
      requires Valid()
      modifies this`openFiles
      ensures Valid() && openFiles == old(openFiles) - {handle}
    {
      openFiles := openFiles - {handle};
    }
  }

  lemma DirentEntry(image: seq<Byte>, table: nat, size: int, node: nat)
    ensures var found := DirentAt(image, table, size, node);
      found.Some? ==> 0 <= found.value.entry.start && 0 <= found.value.entry.size
  {
  }
}
