/** The directory trees of a disc image, and the map from paths to files that is made of them. */
module Xdvdfs {
  import opened Words

  const SECTOR := 2048
  const DIRENT := 14

  datatype FileEntry = FileEntry(start: int, size: int, directory: bool)

  type Entries = map<string, FileEntry>

  // ---- Names ----

  function LowerByte(c: char): char {
    if 'A' <= c <= 'Z' then c - 'A' + 'a' else c
  }

  function Folded(path: string): (r: string)
    ensures |r| == |path|
    ensures forall i | 0 <= i < |r| :: r[i] == if path[i] == '\\' then '/' else LowerByte(path[i])
  {
    seq(|path|, i requires 0 <= i < |path| => if path[i] == '\\' then '/' else LowerByte(path[i]))
  }

  /** Of a path, the ASCII capitals become small letters and backslashes slashes; nothing else changes. */
  lemma FoldedLetters(path: string, i: nat)
    requires i < |path|
    ensures var (before, after) := (path[i] as int, Folded(path)[i] as int);
      after == if 65 <= before <= 90 then before + 32 else if before == 92 then 47 else before
  {
  }

  function SkipSlashes(path: string): string {
    if path != "" && path[0] == '/' then SkipSlashes(path[1..]) else path
  }

  function SkipDrive(path: string): string {
    if |path| >= 2 && path[1] == ':' then path[2..] else path
  }

  function Normalized(path: string): string {
    SkipSlashes(SkipDrive(SkipSlashes(Folded(path))))
  }

  // ---- Reading the image ----

  function ReadAt(image: seq<Byte>, offset: int, size: int): (r: Option<seq<Byte>>)
    requires 0 <= offset && 0 <= size
    ensures r.Some? ==> |r.value| == size
  {
    if size == 0 then Some([]) else if offset + size <= |image| then Some(image[offset..offset + size]) else None
  }

  function LE16(bytes: seq<Byte>, i: nat): (r: int)
    requires i + 2 <= |bytes|
    ensures 0 <= r < 0x1_0000
  {
    var (b0: int, b1: int) := (bytes[i], bytes[i + 1]);
    b0 + 0x100 * b1
  }

  function LE32(bytes: seq<Byte>, i: nat): (r: int)
    requires i + 4 <= |bytes|
    ensures 0 <= r < 0x1_0000_0000
  {
    LE16(bytes, i) + 0x1_0000 * LE16(bytes, i + 2)
  }

  function Text(bytes: seq<Byte>): string {
    seq(|bytes|, i requires 0 <= i < |bytes| => bytes[i] as char)
  }

  /** A directory entry as it lies on the disc. */
  datatype Dirent = Dirent(left: int, right: int, entry: FileEntry, name: string)

  function DirentAt(image: seq<Byte>, table: nat, size: int, node: nat): (r: Option<Dirent>)
    ensures r.Some? ==> node + DIRENT + |r.value.name| <= size && r.value.left >= 0 && r.value.right >= 0
    ensures r.Some? ==> 0 <= r.value.entry.start && r.value.entry.size < 0x1_0000_0000
  {
    if node + DIRENT > size || node % 4 != 0 then None
    else
      var raw := ReadAt(image, table + node, DIRENT);
      if raw.None? then None
      else
        var bytes := raw.value;
        var length: int := bytes[13];
        if node + DIRENT + length > size then None
        else
          var name := ReadAt(image, table + node + DIRENT, length);
          if name.None? then None
          else Some(Dirent(LE16(bytes, 0), LE16(bytes, 2), FileEntry(LE32(bytes, 4), LE32(bytes, 8),
                                                                     bytes[12] / 0x10 % 2 == 1),
                           Text(name.value)))
  }

  function Bytes16(value: int): (r: seq<Byte>)
    ensures |r| == 2
  {
    [value % 0x100, value / 0x100 % 0x100]
  }

  function Bytes32(value: int): (r: seq<Byte>)
    ensures |r| == 4
  {
    Bytes16(value % 0x1_0000) + Bytes16(value / 0x1_0000)
  }

  /** An entry as a disc author writes it: links, place, size, attributes, and the name with its length. */
  function Encoded(left: int, right: int, start: int, size: int, attributes: Byte, name: seq<Byte>): (r: seq<Byte>)
    requires |name| < 0x100
    ensures |r| == DIRENT + |name|
  {
    Bytes16(left) + Bytes16(right) + Bytes32(start) + Bytes32(size) + [attributes, |name|] + name
  }

  lemma Reads16(bytes: seq<Byte>, i: nat, value: int)
    requires i + 2 <= |bytes| && bytes[i..i + 2] == Bytes16(value) && 0 <= value < 0x1_0000
    ensures LE16(bytes, i) == value
  {
    assert bytes[i] == bytes[i..i + 2][0] && bytes[i + 1] == bytes[i..i + 2][1];
  }

  lemma Reads32(bytes: seq<Byte>, i: nat, value: int)
    requires i + 4 <= |bytes| && bytes[i..i + 4] == Bytes32(value) && 0 <= value < 0x1_0000_0000
    ensures LE32(bytes, i) == value
  {
    hide LE16, Bytes16;
    assert bytes[i..i + 2] == bytes[i..i + 4][..2] == Bytes16(value % 0x1_0000);
    assert bytes[i + 2..i + 4] == bytes[i..i + 4][2..] == Bytes16(value / 0x1_0000);
    Reads16(bytes, i, value % 0x1_0000);
    Reads16(bytes, i + 2, value / 0x1_0000);
  }

  lemma EncodedFields(left: int, right: int, start: int, size: int, attributes: Byte, name: seq<Byte>)
    requires 0 <= left < 0x1_0000 && 0 <= right < 0x1_0000 && |name| < 0x100
    requires 0 <= start < 0x1_0000_0000 && 0 <= size < 0x1_0000_0000
    ensures var e := Encoded(left, right, start, size, attributes, name);
      && LE16(e, 0) == left && LE16(e, 2) == right && LE32(e, 4) == start && LE32(e, 8) == size
      && e[12] == attributes && e[13] == |name| && e[DIRENT..] == name
  {
    hide LE16, LE32, Bytes16, Bytes32;
    var e := Encoded(left, right, start, size, attributes, name);
    assert e[0..2] == Bytes16(left) && e[2..4] == Bytes16(right) && e[4..8] == Bytes32(start)
      && e[8..12] == Bytes32(size);
    Reads16(e, 0, left);
    Reads16(e, 2, right);
    Reads32(e, 4, start);
    Reads32(e, 8, size);
  }

  lemma FieldsOfPrefix(e: seq<Byte>)
    requires DIRENT <= |e|
    ensures LE16(e[..DIRENT], 0) == LE16(e, 0) && LE16(e[..DIRENT], 2) == LE16(e, 2)
    ensures LE32(e[..DIRENT], 4) == LE32(e, 4) && LE32(e[..DIRENT], 8) == LE32(e, 8)
  {
  }

  /** An encoded entry is read back field by field. */
  lemma EncodedReadsBack(image: seq<Byte>, table: nat, limit: int, node: nat,
                         left: int, right: int, start: int, size: int, attributes: Byte, name: seq<Byte>)
    requires 0 <= left < 0x1_0000 && 0 <= right < 0x1_0000 && |name| < 0x100
    requires 0 <= start < 0x1_0000_0000 && 0 <= size < 0x1_0000_0000
    requires node % 4 == 0 && node + DIRENT + |name| <= limit && table + node + DIRENT + |name| <= |image|
    requires image[table + node..table + node + DIRENT + |name|] == Encoded(left, right, start, size, attributes, name)
    ensures DirentAt(image, table, limit, node)
         == Some(Dirent(left, right, FileEntry(start, size, attributes / 0x10 % 2 == 1), Text(name)))
  {
    hide LE16, LE32, Encoded, Text;
    var (at, e) := (table + node, Encoded(left, right, start, size, attributes, name));
    EncodedFields(left, right, start, size, attributes, name);
    FieldsOfPrefix(e);
    assert image[at..at + DIRENT] == e[..DIRENT];
    assert image[at + DIRENT..at + DIRENT + |name|] == e[DIRENT..] == name;
  }

  /** No entry without its 14 bytes, at a multiple of four, inside its table and the image. */
  lemma NoDirent(image: seq<Byte>, table: nat, limit: int, node: nat)
    requires node % 4 != 0 || node + 14 > limit || table + node + 14 > |image|
    ensures DirentAt(image, table, limit, node).None?
  {
    hide LE16, LE32, Text;
  }

  /** What the bytes of an entry say: little-endian numbers, a directory by bit 4 of its attributes, and the name. */
  lemma DirentBytes(image: seq<Byte>, table: nat, limit: int, node: nat)
    requires node % 4 == 0 && node + 14 <= limit && table + node + 14 <= |image|
    ensures var (at, length: int) := (table + node, image[table + node + 13]);
      DirentAt(image, table, limit, node)
        == if node + 14 + length > limit || at + 14 + length > |image| then None
           else Some(Said(image, at, image[at + 14..at + 14 + length]))
  {
    var (at, length: int) := (table + node, image[table + node + 13]);
    FieldsSaid(image, at);
    NameRead(image, at, length);
    assert ReadAt(image, at, DIRENT) == Some(image[at..at + 14]);
    hide LE16, LE32, Said, Text, ReadAt;
  }

  function Said(image: seq<Byte>, at: nat, name: seq<Byte>): Dirent
    requires at + 14 <= |image|
  {
    Dirent(Number(image, at, 2), Number(image, at + 2, 2),
           FileEntry(Number(image, at + 4, 4), Number(image, at + 8, 4), image[at + 12] / 16 % 2 == 1), Text(name))
  }

  lemma FieldsSaid(image: seq<Byte>, at: nat)
    requires at + 14 <= |image|
    ensures var bytes := image[at..at + 14];
      && bytes[13] == image[at + 13]
      && forall name :: Said(image, at, name) ==
           Dirent(LE16(bytes, 0), LE16(bytes, 2), FileEntry(LE32(bytes, 4), LE32(bytes, 8), bytes[12] / 0x10 % 2 == 1),
                  Text(name))
  {
    hide LE16, LE32, Number, Text;
    NumberOfSlice(image, at, 0);
    NumberOfSlice(image, at, 2);
    NumberOfSlice(image, at, 4);
    NumberOfSlice(image, at, 8);
  }

  lemma NameRead(image: seq<Byte>, at: nat, length: nat)
    requires at + 14 <= |image|
    ensures ReadAt(image, at + 14, length)
         == if at + 14 + length > |image| then None else Some(image[at + 14..at + 14 + length])
  {
    if length == 0 { assert image[at + 14..at + 14 + length] == []; }
  }

  /** The number whose bytes lie at `at`, least significant first. */
  function Number(image: seq<Byte>, at: nat, n: nat): int
    requires at + n <= |image|
    decreases n
  {
    if n == 0 then 0
    else
      var low: int := image[at];
      low + 0x100 * Number(image, at + 1, n - 1)
  }

  lemma NumberOfSlice(image: seq<Byte>, at: nat, i: nat)
    requires at + 14 <= |image| && i + 4 <= 14
    ensures var bytes := image[at..at + 14];
      LE16(bytes, i) == Number(image, at + i, 2) && LE32(bytes, i) == Number(image, at + i, 4)
  {
    var bytes := image[at..at + 14];
    assert bytes[i] == image[at + i] && bytes[i + 1] == image[at + i + 1];
    assert bytes[i + 2] == image[at + i + 2] && bytes[i + 3] == image[at + i + 3];
    assert Number(image, at + i + 4, 0) == 0;
    assert Number(image, at + i + 2, 0) == 0;
    var (b0: int, b1: int, b2: int, b3: int) := (bytes[i], bytes[i + 1], bytes[i + 2], bytes[i + 3]);
    assert Number(image, at + i + 3, 1) == b3;
    assert Number(image, at + i + 2, 2) == b2 + 0x100 * b3;
    assert Number(image, at + i + 1, 3) == b1 + 0x100 * (b2 + 0x100 * b3);
    assert Number(image, at + i + 1, 1) == b1;
  }

  function PathOf(prefix: string, name: string): string {
    prefix + Normalized(name)
  }

  predicate IsListed(path: string) {
    path != "" && path[|path| - 1] != '/'
  }

  predicate Descends(path: string, entry: FileEntry) {
    entry.directory && entry.size != 0 && IsListed(path)
  }

  // ---- The parser ----

  datatype Status = Done | Malformed | TooDeep

  datatype Parsed = Parsed(status: Status, entries: Entries)

  function Insert(entries: Entries, path: string, entry: FileEntry): Entries {
    if IsListed(path) then entries[path := entry] else entries
  }

  function ParseDirectory(image: seq<Byte>, start: nat, size: int, prefix: string, entries: Entries, fuel: nat): Parsed
    decreases fuel, 1
  {
    ParseNode(image, start * SECTOR, size, 0, prefix, entries, fuel)
  }

  /** `fuel` bounds the depth of the recursion, which the image alone does not. */
  function ParseNode(image: seq<Byte>, table: nat, size: int, node: nat, prefix: string, entries: Entries,
                     fuel: nat): Parsed
    decreases fuel, 0
  {
    var found := DirentAt(image, table, size, node);
    if fuel == 0 then Parsed(TooDeep, entries)
    else if found.None? then Parsed(Malformed, entries)
    else
      var dirent := found.value;
      var path := PathOf(prefix, dirent.name);
      var before := ParseLink(image, table, size, dirent.left, prefix, entries, fuel - 1);
      if before.status != Done then before
      else
        var inside := ParseInside(image, dirent.entry, path, Insert(before.entries, path, dirent.entry), fuel - 1);
        if inside.status != Done then inside
        else ParseLink(image, table, size, dirent.right, prefix, inside.entries, fuel - 1)
  }

  function ParseLink(image: seq<Byte>, table: nat, size: int, link: nat, prefix: string, entries: Entries,
                     fuel: nat): Parsed
    decreases fuel, 2
  {
    if link == 0 then Parsed(Done, entries) else ParseNode(image, table, size, link * 4, prefix, entries, fuel)
  }

  function ParseInside(image: seq<Byte>, entry: FileEntry, path: string, entries: Entries, fuel: nat): Parsed
    requires entry.start >= 0
    decreases fuel, 2
  {
    if Descends(path, entry) then ParseDirectory(image, entry.start, entry.size, path + "/", entries, fuel)
    else Parsed(Done, entries)
  }

  /** A directory's table starts at its sector, of 2048 bytes, with its first node; links count in fours. */
  lemma TablePlaces(image: seq<Byte>, start: nat, size: int, link: nat, prefix: string, entries: Entries, fuel: nat)
    ensures ParseDirectory(image, start, size, prefix, entries, fuel)
         == ParseNode(image, 2048 * start, size, 0, prefix, entries, fuel)
    ensures ParseLink(image, 2048 * start, size, link, prefix, entries, fuel)
         == if link == 0 then Parsed(Done, entries)
            else ParseNode(image, 2048 * start, size, 4 * link, prefix, entries, fuel)
  {
    hide ParseNode;
  }

  /** An entry without links that is no directory: its path is added, unless it is empty or ends in a slash. */
  lemma SingleEntry(image: seq<Byte>, table: nat, size: int, prefix: string, entries: Entries, fuel: nat, name: string,
                    entry: FileEntry)
    requires fuel > 0 && !entry.directory && DirentAt(image, table, size, 0) == Some(Dirent(0, 0, entry, name))
    ensures var path := prefix + Normalized(name);
      ParseNode(image, table, size, 0, prefix, entries, fuel)
        == Parsed(Done, if path == "" || path[|path| - 1] == '/' then entries else entries[path := entry])
  {
    hide DirentAt, Normalized;
  }

  // ---- Trees ----

  /** A directory: a binary tree of entries, each of which may hold a directory of its own. */
  datatype Tree = Leaf | Node(left: Tree, name: string, entry: FileEntry, inside: Tree, right: Tree)

  function Height(t: Tree): nat {
    if t == Leaf then 0 else 1 + Most(Height(t.left), Most(Height(t.inside), Height(t.right)))
  }

  function Most(a: nat, b: nat): nat {
    if a >= b then a else b
  }

  /** The image holds the tree `t` at a node of a table. */
  ghost predicate Holds(image: seq<Byte>, table: nat, size: int, node: nat, prefix: string, t: Tree)
    decreases t
  {
    var found := DirentAt(image, table, size, node);
    && t.Node? && found.Some?
    && var dirent := found.value;
       var path := PathOf(prefix, dirent.name);
       && t.name == dirent.name && t.entry == dirent.entry
       && (if dirent.left == 0 then t.left == Leaf else Holds(image, table, size, dirent.left * 4, prefix, t.left))
       && (if !Descends(path, t.entry) then t.inside == Leaf
           else Holds(image, t.entry.start * SECTOR, t.entry.size, 0, path + "/", t.inside))
       && (if dirent.right == 0 then t.right == Leaf else Holds(image, table, size, dirent.right * 4, prefix, t.right))
  }

  /** What the tree lists, in the order of its nodes. */
  function Listing(t: Tree, prefix: string): seq<(string, FileEntry)> {
    if t == Leaf then []
    else
      var path := PathOf(prefix, t.name);
      Listing(t.left, prefix) + (if IsListed(path) then [(path, t.entry)] else [])
        + Listing(t.inside, path + "/") + Listing(t.right, prefix)
  }

  function InsertAll(entries: Entries, list: seq<(string, FileEntry)>): Entries
    decreases |list|
  {
    if list == [] then entries else InsertAll(entries[list[0].0 := list[0].1], list[1..])
  }

  lemma {:induction false} InsertAppend(entries: Entries, a: seq<(string, FileEntry)>, b: seq<(string, FileEntry)>)
    ensures InsertAll(entries, a + b) == InsertAll(InsertAll(entries, a), b)
    decreases |a|
  {
    if a == [] {
      assert a + b == b;
    } else {
      assert (a + b)[1..] == a[1..] + b;
      InsertAppend(entries[a[0].0 := a[0].1], a[1..], b);
    }
  }

  lemma InsertOne(entries: Entries, path: string, entry: FileEntry)
    ensures InsertAll(entries, if IsListed(path) then [(path, entry)] else []) == Insert(entries, path, entry)
  {
    if IsListed(path) {
      var one := [(path, entry)];
      assert one[1..] == [];
      assert InsertAll(entries, one) == InsertAll(entries[path := entry], []);
    }
  }

  lemma ListingInserted(t: Tree, prefix: string, path: string, entries: Entries)
    requires t.Node? && path == PathOf(prefix, t.name)
    ensures InsertAll(entries, Listing(t, prefix))
         == InsertAll(InsertAll(Insert(InsertAll(entries, Listing(t.left, prefix)), path, t.entry),
                                Listing(t.inside, path + "/")),
                      Listing(t.right, prefix))
  {
    hide InsertAll, Insert, IsListed, PathOf;
    var left, inside, right := Listing(t.left, prefix), Listing(t.inside, path + "/"), Listing(t.right, prefix);
    var own := if IsListed(path) then [(path, t.entry)] else [];
    InsertAppend(entries, left + own + inside, right);
    InsertAppend(entries, left + own, inside);
    InsertAppend(entries, left, own);
    InsertOne(InsertAll(entries, left), path, t.entry);
  }

  /** A tree that the image holds is parsed, into exactly what it lists. */
  lemma {:induction false} TreeParses(image: seq<Byte>, table: nat, size: int, node: nat, prefix: string,
                                      entries: Entries,
                                      fuel: nat, t: Tree)
    requires Holds(image, table, size, node, prefix, t) && fuel >= Height(t)
    ensures ParseNode(image, table, size, node, prefix, entries, fuel)
      == Parsed(Done, InsertAll(entries, Listing(t, prefix)))
    decreases t
  {
    hide Listing, InsertAll, DirentAt, PathOf, Insert, IsListed;
    var dirent := DirentAt(image, table, size, node).value;
    var path := PathOf(prefix, t.name);
    ListingInserted(t, prefix, path, entries);
    NothingListed(entries, prefix);
    var before := InsertAll(entries, Listing(t.left, prefix));
    var own := Insert(before, path, t.entry);
    var inside := InsertAll(own, Listing(t.inside, path + "/"));
    NothingListed(own, path + "/");
    NothingListed(inside, prefix);
    if dirent.left != 0 {
      TreeParses(image, table, size, dirent.left * 4, prefix, entries, fuel - 1, t.left);
    }
    assert ParseLink(image, table, size, dirent.left, prefix, entries, fuel - 1) == Parsed(Done, before);
    if Descends(path, t.entry) {
      TreeParses(image, t.entry.start * SECTOR, t.entry.size, 0, path + "/", own, fuel - 1, t.inside);
    }
    assert ParseInside(image, t.entry, path, own, fuel - 1) == Parsed(Done, inside);
    if dirent.right != 0 {
      TreeParses(image, table, size, dirent.right * 4, prefix, inside, fuel - 1, t.right);
    }
    assert ParseLink(image, table, size, dirent.right, prefix, inside, fuel - 1)
        == Parsed(Done, InsertAll(inside, Listing(t.right, prefix)));
  }

  lemma NothingListed(entries: Entries, prefix: string)
    ensures InsertAll(entries, Listing(Leaf, prefix)) == entries
  {
  }

  /** The tree that a successful parse has walked. */
  function TreeAt(image: seq<Byte>, table: nat, size: int, node: nat, prefix: string, fuel: nat): Tree
    decreases fuel
  {
    var found := DirentAt(image, table, size, node);
    if fuel == 0 || found.None? then Leaf
    else
      var dirent := found.value;
      var path := PathOf(prefix, dirent.name);
      Node(if dirent.left == 0 then Leaf else TreeAt(image, table, size, dirent.left * 4, prefix, fuel - 1),
           dirent.name, dirent.entry,
           if Descends(path, dirent.entry)
             then TreeAt(image, dirent.entry.start * SECTOR, dirent.entry.size, 0, path + "/", fuel - 1) else Leaf,
           if dirent.right == 0 then Leaf else TreeAt(image, table, size, dirent.right * 4, prefix, fuel - 1))
  }

  lemma {:induction false} ParsedIsHeld(image: seq<Byte>, table: nat, size: int, node: nat, prefix: string,
                                        entries: Entries, fuel: nat)
    requires ParseNode(image, table, size, node, prefix, entries, fuel).status == Done
    ensures Holds(image, table, size, node, prefix, TreeAt(image, table, size, node, prefix, fuel))
    decreases fuel
  {
    hide DirentAt, PathOf, Insert, Descends;
    var dirent := DirentAt(image, table, size, node).value;
    var path := PathOf(prefix, dirent.name);
    if dirent.left != 0 {
      ParsedIsHeld(image, table, size, dirent.left * 4, prefix, entries, fuel - 1);
    }
    var before := ParseLink(image, table, size, dirent.left, prefix, entries, fuel - 1);
    var own := Insert(before.entries, path, dirent.entry);
    assert before.status == Done && ParseInside(image, dirent.entry, path, own, fuel - 1).status == Done;
    if Descends(path, dirent.entry) {
      assert ParseDirectory(image, dirent.entry.start, dirent.entry.size, path + "/", own, fuel - 1).status == Done;
      ParsedIsHeld(image, dirent.entry.start * SECTOR, dirent.entry.size, 0, path + "/", own, fuel - 1);
    }
    var inside := ParseInside(image, dirent.entry, path, own, fuel - 1);
    assert inside.status == Done;
    assert ParseLink(image, table, size, dirent.right, prefix, inside.entries, fuel - 1).status == Done;
    if dirent.right != 0 {
      ParsedIsHeld(image, table, size, dirent.right * 4, prefix, inside.entries, fuel - 1);
    }
  }

  /** Parsing succeeds, with enough stack, exactly on the images that hold a finite tree. */
  lemma ParsesIff(image: seq<Byte>, table: nat, size: int, node: nat, prefix: string)
    ensures (exists t :: Holds(image, table, size, node, prefix, t))
       <==> (exists fuel: nat :: ParseNode(image, table, size, node, prefix, map[], fuel).status == Done)
  {
    if t :| Holds(image, table, size, node, prefix, t) {
      TreeParses(image, table, size, node, prefix, map[], Height(t), t);
      assert ParseNode(image, table, size, node, prefix, map[], Height(t)).status == Done;
    }
    if fuel: nat :| ParseNode(image, table, size, node, prefix, map[], fuel).status == Done {
      ParsedIsHeld(image, table, size, node, prefix, map[], fuel);
    }
  }

  /** An image holds at most one tree at a node. */
  lemma {:induction false} HeldOnce(image: seq<Byte>, table: nat, size: int, node: nat, prefix: string, t: Tree,
                                    u: Tree)
    requires Holds(image, table, size, node, prefix, t) && Holds(image, table, size, node, prefix, u)
    ensures t == u
    decreases t
  {
    hide DirentAt, PathOf, Descends;
    var dirent := DirentAt(image, table, size, node).value;
    var path := PathOf(prefix, dirent.name);
    if dirent.left != 0 { HeldOnce(image, table, size, dirent.left * 4, prefix, t.left, u.left); }
    if Descends(path, t.entry) { HeldOnce(image, t.entry.start * SECTOR, t.entry.size, 0, path + "/", t.inside,
                                          u.inside); }
    if dirent.right != 0 { HeldOnce(image, table, size, dirent.right * 4, prefix, t.right, u.right); }
  }

  // ---- Reads stay inside their table ----

  /** Every byte of the table is the same in both images. */
  ghost predicate SameTable(image: seq<Byte>, other: seq<Byte>, table: nat, size: int) {
    |image| == |other| && forall i | table <= i < table + size && i < |image| :: image[i] == other[i]
  }

  lemma ReadLocal(image: seq<Byte>, other: seq<Byte>, table: nat, size: int, offset: int, length: int)
    requires SameTable(image, other, table, size) && table <= offset && 0 <= length && offset + length <= table + size
    ensures ReadAt(image, offset, length) == ReadAt(other, offset, length)
  {
    if offset + length <= |image| {
      assert image[offset..offset + length] == other[offset..offset + length];
    }
  }

  /** An entry and its name are read from the bytes of their own table only, whatever the image holds. */
  lemma DirentLocal(image: seq<Byte>, other: seq<Byte>, table: nat, size: int, node: nat)
    requires SameTable(image, other, table, size)
    ensures DirentAt(image, table, size, node) == DirentAt(other, table, size, node)
  {
    hide SameTable, ReadAt, Text;
    if node + DIRENT <= size {
      ReadLocal(image, other, table, size, table + node, DIRENT);
      var raw := ReadAt(image, table + node, DIRENT);
      if raw.Some? && node + DIRENT + raw.value[13] <= size {
        ReadLocal(image, other, table, size, table + node + DIRENT, raw.value[13]);
      }
    }
  }

  // ---- Distinct names ----

  /** A path up to its first slash. */
  function FirstName(path: string): string {
    if path == "" || path[0] == '/' then "" else [path[0]] + FirstName(path[1..])
  }

  /** The names in one directory. */
  function Names(t: Tree): set<string> {
    if t == Leaf then {} else Names(t.left) + {Normalized(t.name)} + Names(t.right)
  }

  /** Names are free of slashes, not empty, and differ within a directory. */
  ghost predicate WellNamed(t: Tree) {
    t == Leaf ||
    (var name := Normalized(t.name);
     && name != "" && '/' !in name
     && name !in Names(t.left) && name !in Names(t.right) && Names(t.left) !! Names(t.right)
     && WellNamed(t.left) && WellNamed(t.inside) && WellNamed(t.right))
  }

  predicate Distinct(list: seq<(string, FileEntry)>) {
    forall i, j | 0 <= i < j < |list| :: list[i].0 != list[j].0
  }

  /** Every path of a listing starts with the prefix and a name of the directory. */
  ghost predicate Under(list: seq<(string, FileEntry)>, prefix: string, names: set<string>) {
    forall e | e in list :: |prefix| <= |e.0| && e.0[..|prefix|] == prefix && FirstName(e.0[|prefix|..]) in names
  }

  lemma {:induction false} FirstOfName(name: string, rest: string)
    requires '/' !in name && (rest == "" || rest[0] == '/')
    ensures FirstName(name + rest) == name
    decreases |name|
  {
    if name == "" {
      assert name + rest == rest;
    } else {
      assert name[0] in name && '/' !in name[1..];
      assert (name + rest)[1..] == name[1..] + rest;
      FirstOfName(name[1..], rest);
    }
  }

  lemma {:induction false} ListingUnder(t: Tree, prefix: string)
    requires WellNamed(t)
    ensures Under(Listing(t, prefix), prefix, Names(t))
    decreases t
  {
    hide Normalized, FirstName;
    if t.Node? {
      var name := Normalized(t.name);
      var path := PathOf(prefix, t.name);
      ListingUnder(t.left, prefix);
      ListingUnder(t.inside, path + "/");
      ListingUnder(t.right, prefix);
      FirstOfName(name, "");
      forall e | e in Listing(t, prefix)
        ensures |prefix| <= |e.0| && e.0[..|prefix|] == prefix && FirstName(e.0[|prefix|..]) in Names(t)
      {
        if e in Listing(t.inside, path + "/") {
          InsideFirst(e.0, prefix, name);
        } else if e == (path, t.entry) {
          assert path[|prefix|..] == name + "";
        }
      }
    }
  }

  lemma InsideFirst(path: string, prefix: string, name: string)
    requires '/' !in name && |prefix + name + "/"| <= |path| && path[..|prefix + name + "/"|] == prefix + name + "/"
    ensures path[..|prefix|] == prefix && FirstName(path[|prefix|..]) == name
  {
    var head := prefix + name + "/";
    assert path[..|prefix|] == head[..|prefix|] == prefix;
    var rest := path[|prefix| + |name|..];
    assert rest[0] == path[|prefix| + |name|] == head[|prefix| + |name|] == '/';
    assert path[|prefix|..] == name + rest by {
      assert path[|prefix|..|prefix| + |name|] == head[|prefix|..|prefix| + |name|] == name;
    }
    FirstOfName(name, rest);
  }

  lemma DistinctAppend(a: seq<(string, FileEntry)>, b: seq<(string, FileEntry)>)
    requires Distinct(a) && Distinct(b) && forall x, y | x in a && y in b :: x.0 != y.0
    ensures Distinct(a + b)
  {
    forall i, j | 0 <= i < j < |a + b| ensures (a + b)[i].0 != (a + b)[j].0 {
      if i < |a| <= j {
        assert a[i] in a && b[j - |a|] in b;
      }
    }
  }

  lemma ApartByNames(a: seq<(string, FileEntry)>, b: seq<(string, FileEntry)>, prefix: string, names: set<string>,
                     others: set<string>)
    requires Under(a, prefix, names) && Under(b, prefix, others) && names !! others
    ensures forall x, y | x in a && y in b :: x.0 != y.0
  {
  }

  lemma {:induction false} ListingDistinct(t: Tree, prefix: string)
    requires WellNamed(t)
    ensures Distinct(Listing(t, prefix))
    decreases t
  {
    hide Normalized, Under, Distinct, FirstName;
    if t == Leaf {
      EmptyDistinct();
    } else {
      var name := Normalized(t.name);
      var path := PathOf(prefix, t.name);
      ListingDistinct(t.left, prefix);
      ListingDistinct(t.inside, path + "/");
      ListingDistinct(t.right, prefix);
      ListingUnder(t.left, prefix);
      ListingUnder(t.right, prefix);
      ListingUnder(t.inside, path + "/");
      OwnDistinct(Listing(t.inside, path + "/"), t.entry, prefix, name, Names(t.inside));
      ListingParts(t, prefix);
      SiblingsDistinct(Listing(t.left, prefix), [(path, t.entry)] + Listing(t.inside, path + "/"),
                       Listing(t.right, prefix),
                       prefix, name, Names(t.left), Names(t.right));
    }
  }

  lemma NameListed(prefix: string, name: string)
    requires name != "" && '/' !in name
    ensures IsListed(prefix + name)
  {
    assert (prefix + name)[|prefix + name| - 1] == name[|name| - 1];
    assert name[|name| - 1] in name;
  }

  lemma ListingParts(t: Tree, prefix: string)
    requires t.Node? && Normalized(t.name) != "" && '/' !in Normalized(t.name)
    ensures var path := PathOf(prefix, t.name);
      Listing(t, prefix) == Listing(t.left, prefix) + ([(path, t.entry)] + Listing(t.inside,
          path + "/")) + Listing(t.right, prefix)
  {
    NameListed(prefix, Normalized(t.name));
    hide Normalized, IsListed;
    var path := PathOf(prefix, t.name);
    Regroup(Listing(t.left, prefix), [(path, t.entry)], Listing(t.inside, path + "/"), Listing(t.right, prefix));
  }

  lemma Regroup<T>(a: seq<T>, b: seq<T>, c: seq<T>, d: seq<T>)
    ensures a + b + c + d == a + (b + c) + d
  {
  }

  lemma SiblingsDistinct(left: seq<(string, FileEntry)>, own: seq<(string, FileEntry)>, right: seq<(string, FileEntry)>,
                         prefix: string, name: string, lefts: set<string>, rights: set<string>)
    requires Distinct(left) && Distinct(own) && Distinct(right)
    requires Under(left, prefix, lefts) && Under(own, prefix, {name}) && Under(right, prefix, rights)
    requires name !in lefts && name !in rights && lefts !! rights
    ensures Distinct(left + own + right)
  {
    ApartByNames(left, own, prefix, lefts, {name});
    ApartByNames(left, right, prefix, lefts, rights);
    ApartByNames(own, right, prefix, {name}, rights);
    hide Distinct, Under;
    DistinctAppend(left, own);
    DistinctAppend(left + own, right);
  }

  lemma EmptyDistinct()
    ensures Distinct([])
  {
  }

  /** An entry and everything inside it. */
  lemma OwnDistinct(inside: seq<(string, FileEntry)>, entry: FileEntry, prefix: string, name: string,
                    names: set<string>)
    requires '/' !in name && Distinct(inside) && Under(inside, prefix + name + "/", names)
    ensures Distinct([(prefix + name, entry)] + inside)
    ensures Under([(prefix + name, entry)] + inside, prefix, {name})
  {
    hide FirstName;
    var own := [(prefix + name, entry)];
    forall e | e in own + inside
      ensures |prefix| <= |e.0| && e.0[..|prefix|] == prefix && FirstName(e.0[|prefix|..]) in {name}
    {
      if e in inside {
        InsideFirst(e.0, prefix, name);
      } else {
        FirstOfName(name, "");
        assert (prefix + name)[|prefix|..] == name + "";
      }
    }
    DistinctAppend(own, inside);
  }

  lemma {:induction false} InsertedExactly(entries: Entries, list: seq<(string, FileEntry)>)
    requires Distinct(list)
    ensures var m := InsertAll(entries, list);
      && (forall e | e in list :: e.0 in m && m[e.0] == e.1)
      && (forall p | p in m :: (p, m[p]) in list || (p in entries && m[p] == entries[p]))
      && (forall p | p in entries && (forall e | e in list :: e.0 != p) :: p in m && m[p] == entries[p])
    decreases |list|
  {
    if list != [] {
      InsertedExactly(entries[list[0].0 := list[0].1], list[1..]);
      var m := InsertAll(entries, list);
      assert forall e | e in list[1..] :: e.0 != list[0].0;
      forall p | p in m ensures (p, m[p]) in list || (p in entries && m[p] == entries[p]) {
        if (p, m[p]) !in list[1..] && p == list[0].0 { assert (p, m[p]) == list[0]; }
      }
    }
  }

  /** With distinct names the map holds exactly what the tree lists: nothing is overwritten or added. */
  lemma EntriesExact(image: seq<Byte>, table: nat, size: int, prefix: string, fuel: nat, t: Tree)
    requires Holds(image, table, size, 0, prefix, t) && fuel >= Height(t) && WellNamed(t)
    ensures var r := ParseNode(image, table, size, 0, prefix, map[], fuel);
      && r.status == Done
      && (forall e | e in Listing(t, prefix) :: e.0 in r.entries && r.entries[e.0] == e.1)
      && (forall p | p in r.entries :: (p, r.entries[p]) in Listing(t, prefix))
  {
    hide Holds, ParseNode, WellNamed, Listing, InsertAll, Distinct;
    TreeParses(image, table, size, 0, prefix, map[], fuel, t);
    ListingDistinct(t, prefix);
    InsertedExactly(map[], Listing(t, prefix));
  }

  // ---- Parents ----

  /** The directory part of each path is a path, too. */
  ghost predicate ParentsPresent(entries: Entries) {
    forall p, i | p in entries && 0 <= i < |p| && p[i] == '/' && '/' !in p[i + 1..] :: p[..i] in entries
  }

  /** The prefix under which a directory is parsed names an entry. */
  ghost predicate PrefixPresent(entries: Entries, prefix: string) {
    prefix == "" || (prefix[|prefix| - 1] == '/' && prefix[..|prefix| - 1] in entries)
  }

  /** No name has a slash left in it. */
  ghost predicate SlashFree(t: Tree) {
    t == Leaf || ('/' !in Normalized(t.name) && SlashFree(t.left) && SlashFree(t.inside) && SlashFree(t.right))
  }

  lemma InsertKeepsParents(entries: Entries, prefix: string, name: string, entry: FileEntry)
    requires ParentsPresent(entries) && PrefixPresent(entries, prefix) && '/' !in Normalized(name)
    ensures ParentsPresent(Insert(entries, PathOf(prefix, name), entry))
    ensures forall p | p in entries :: p in Insert(entries, PathOf(prefix, name), entry)
  {
    hide Normalized;
    var path := PathOf(prefix, name);
    var m := Insert(entries, path, entry);
    forall p, i | p in m && 0 <= i < |p| && p[i] == '/' && '/' !in p[i + 1..] ensures p[..i] in m {
      if p == path {
        LastSlash(prefix, Normalized(name), i);
      }
    }
  }

  lemma LastSlash(prefix: string, name: string, i: int)
    requires '/' !in name && (prefix == "" || prefix[|prefix| - 1] == '/')
    requires 0 <= i < |prefix + name| && (prefix + name)[i] == '/' && '/' !in (prefix + name)[i + 1..]
    ensures prefix != "" && i == |prefix| - 1 && (prefix + name)[..i] == prefix[..i]
  {
    var path := prefix + name;
    forall j | |prefix| <= j < |path| ensures path[j] != '/' {
      assert path[j] == name[j - |prefix|] && name[j - |prefix|] in name;
    }
    assert prefix != "" ==> path[|prefix| - 1] == prefix[|prefix| - 1];
    assert i <= |prefix| ==> path[..i] == prefix[..i];
    forall j | i < j < |path| ensures path[j] in path[i + 1..] {
      assert path[i + 1..][j - i - 1] == path[j];
    }
  }

  /** In a tree without slashes in its names, every entry's parent is an entry. */
  lemma {:induction false} ParentsKept(t: Tree, prefix: string, entries: Entries)
    requires SlashFree(t) && ParentsPresent(entries) && PrefixPresent(entries, prefix)
    requires Reachable(t, prefix)
    ensures ParentsPresent(InsertAll(entries, Listing(t, prefix)))
    ensures forall p | p in entries :: p in InsertAll(entries, Listing(t, prefix))
    decreases t
  {
    hide ParentsPresent, InsertAll, Insert, Normalized, PrefixPresent, Listing;
    if t == Leaf {
      NothingListed(entries, prefix);
    } else {
      var path := PathOf(prefix, t.name);
      ListingInserted(t, prefix, path, entries);
      ParentsKept(t.left, prefix, entries);
      var before := InsertAll(entries, Listing(t.left, prefix));
      StillPresent(entries, before, prefix);
      InsertKeepsParents(before, prefix, t.name, t.entry);
      var own := Insert(before, path, t.entry);
      if t.inside == Leaf {
        NothingListed(own, path + "/");
      } else {
        NowPresent(before, path, t.entry);
        ParentsKept(t.inside, path + "/", own);
      }
      var inside := InsertAll(own, Listing(t.inside, path + "/"));
      StillPresent(entries, inside, prefix);
      ParentsKept(t.right, prefix, inside);
    }
  }

  /** A directory is entered only through an entry that is listed. */
  ghost predicate Reachable(t: Tree, prefix: string) {
    t == Leaf ||
    (var path := PathOf(prefix, t.name);
     && (t.inside.Node? ==> IsListed(path))
     && Reachable(t.left, prefix) && Reachable(t.inside, path + "/") && Reachable(t.right, prefix))
  }

  lemma {:induction false} HeldIsReachable(image: seq<Byte>, table: nat, size: int, node: nat, prefix: string, t: Tree)
    requires Holds(image, table, size, node, prefix, t)
    ensures Reachable(t, prefix)
    decreases t
  {
    hide DirentAt, PathOf, IsListed;
    var dirent := DirentAt(image, table, size, node).value;
    var path := PathOf(prefix, dirent.name);
    if dirent.left != 0 { HeldIsReachable(image, table, size, dirent.left * 4, prefix, t.left); }
    if Descends(path, t.entry) { HeldIsReachable(image, t.entry.start * SECTOR, t.entry.size, 0, path + "/",
                                                 t.inside); }
    if dirent.right != 0 { HeldIsReachable(image, table, size, dirent.right * 4, prefix, t.right); }
  }

  lemma StillPresent(entries: Entries, more: Entries, prefix: string)
    requires PrefixPresent(entries, prefix) && forall p | p in entries :: p in more
    ensures PrefixPresent(more, prefix)
  {
  }

  lemma NowPresent(entries: Entries, path: string, entry: FileEntry)
    requires IsListed(path)
    ensures PrefixPresent(Insert(entries, path, entry), path + "/")
  {
    assert (path + "/")[..|path|] == path;
  }

  /** Every entry of a parsed image has its parent directory among the entries. */
  lemma ParsedParents(image: seq<Byte>, table: nat, size: int, fuel: nat, t: Tree)
    requires Holds(image, table, size, 0, "", t) && fuel >= Height(t) && SlashFree(t)
    ensures ParentsPresent(ParseNode(image, table, size, 0, "", map[], fuel).entries)
  {
    hide Holds, ParseNode, Listing, InsertAll, SlashFree;
    TreeParses(image, table, size, 0, "", map[], fuel, t);
    HeldIsReachable(image, table, size, 0, "", t);
    ParentsKept(t, "", map[]);
  }

  // ---- Trees as a disc author writes them ----

  /** A directory on the disc: each entry knows the offset of its node, and what is written there. */
  datatype Folder =
    | Nothing
    | Item(node: int, left: Folder, name: seq<Byte>, start: int, size: int, attributes: Byte, inside: Folder,
           right: Folder)

  /** The link to a node, in units of four bytes; 0 is no link. */
  function LinkTo(d: Folder): int {
    if d == Nothing then 0 else d.node / 4
  }

  predicate Linkable(d: Folder) {
    d == Nothing || (0 < d.node && d.node % 4 == 0 && d.node / 4 < 0x1_0000)
  }

  /** The fields fit their bytes. */
  predicate Encodable(d: Folder) {
    d.Item? ==>
      && |d.name| < 0x100 && 0 <= d.start < 0x1_0000_0000 && 0 <= d.size < 0x1_0000_0000
      && Linkable(d.left) && Linkable(d.right)
  }

  /** The encoded entry stands at its node, inside its table. */
  predicate EntryWritten(image: seq<Byte>, table: int, limit: int, d: Folder) {
    && d.Item? && Encodable(d) && 0 <= table && 0 <= d.node && d.node % 4 == 0
    && d.node + DIRENT + |d.name| <= limit && table + d.node + DIRENT + |d.name| <= |image|
    && image[table + d.node..table + d.node + DIRENT + |d.name|]
         == Encoded(LinkTo(d.left), LinkTo(d.right), d.start, d.size, d.attributes, d.name)
  }

  predicate IsDirectory(d: Folder)
    requires d.Item?
  {
    d.attributes / 0x10 % 2 == 1
  }

  /** A folder is written in a table when all its entries are, and directories in tables of their own. */
  predicate Written(image: seq<Byte>, table: int, limit: int, d: Folder)
    decreases d
  {
    match d
    case Nothing => true
    case Item(_, left, _, start, size, attributes, inside, right) =>
      && (if attributes / 0x10 % 2 == 1 && size != 0
            then inside.Item? && inside.node == 0 && Written(image, start * SECTOR, size, inside)
            else inside == Nothing)
      && Written(image, table, limit, left) && Written(image, table, limit, right)
      && EntryWritten(image, table, limit, d)
  }

  /** The tree as readers of paths know it. */
  function TreeOf(d: Folder): Tree {
    if d == Nothing then Leaf
    else Node(TreeOf(d.left), Text(d.name), FileEntry(d.start, d.size, IsDirectory(d)), TreeOf(d.inside),
              TreeOf(d.right))
  }

  /** Every name is a name: not empty and without slashes, once it is normalised. */
  predicate Named(d: Folder) {
    d == Nothing ||
    (Normalized(Text(d.name)) != "" && '/' !in Normalized(Text(d.name)) && Named(d.left) && Named(d.inside)
     && Named(d.right))
  }

  lemma EntryReadsBack(image: seq<Byte>, table: nat, limit: int, d: Folder)
    requires EntryWritten(image, table, limit, d)
    ensures DirentAt(image, table, limit, d.node)
         == Some(Dirent(LinkTo(d.left), LinkTo(d.right), FileEntry(d.start, d.size, IsDirectory(d)), Text(d.name)))
  {
    hide Encoded, Text;
    EncodedReadsBack(image, table, limit, d.node, LinkTo(d.left), LinkTo(d.right), d.start, d.size, d.attributes,
                     d.name);
  }

  lemma {:induction false} WrittenIsHeld(image: seq<Byte>, table: nat, limit: int, prefix: string, d: Folder)
    requires d.Item? && Written(image, table, limit, d) && Named(d)
    ensures 0 <= d.node && Holds(image, table, limit, d.node, prefix, TreeOf(d))
    decreases d
  {
    hide DirentAt, Normalized, Text, Encoded, IsListed;
    EntryReadsBack(image, table, limit, d);
    var path := PathOf(prefix, Text(d.name));
    NameListed(prefix, Normalized(Text(d.name)));
    LinksLead(image, table, limit, d);
    hide EntryWritten;
    if d.left.Item? { WrittenIsHeld(image, table, limit, prefix, d.left); }
    if d.inside.Item? { WrittenIsHeld(image, d.start * SECTOR, d.size, path + "/", d.inside); }
    if d.right.Item? { WrittenIsHeld(image, table, limit, prefix, d.right); }
  }

  lemma LinksLead(image: seq<Byte>, table: nat, limit: int, d: Folder)
    requires EntryWritten(image, table, limit, d)
    ensures 0 <= d.node && 0 <= d.start
    ensures if d.left == Nothing then LinkTo(d.left) == 0 else LinkTo(d.left) != 0 && LinkTo(d.left) * 4 == d.left.node
    ensures if d.right == Nothing then LinkTo(d.right) == 0
            else LinkTo(d.right) != 0 && LinkTo(d.right) * 4 == d.right.node
  {
  }

  /** Parsing the bytes of any finite folder gives exactly what the folder lists. */
  lemma WrittenParses(image: seq<Byte>, table: nat, limit: int, prefix: string, entries: Entries, fuel: nat, d: Folder)
    requires d.Item? && d.node == 0 && Written(image, table, limit, d) && Named(d) && fuel >= Height(TreeOf(d))
    ensures ParseNode(image, table, limit, 0, prefix, entries, fuel)
         == Parsed(Done, InsertAll(entries, Listing(TreeOf(d), prefix)))
  {
    hide Holds, ParseNode, Listing, InsertAll, Written, Named, Height, TreeOf;
    WrittenIsHeld(image, table, limit, prefix, d);
    TreeParses(image, table, limit, 0, prefix, entries, fuel, TreeOf(d));
  }

  lemma {:induction false} WellNamedIsNamed(d: Folder)
    requires WellNamed(TreeOf(d))
    ensures Named(d) && SlashFree(TreeOf(d))
    decreases d
  {
    hide Normalized, Text;
    if d != Nothing {
      WellNamedIsNamed(d.left);
      WellNamedIsNamed(d.inside);
      WellNamedIsNamed(d.right);
    }
  }

  /**
   Parsing the bytes of any finite directory tree with distinct, slash-free names gives exactly its
   flattened map from paths to entries, in which every entry's parent path is an entry.
   */
  lemma WrittenExact(image: seq<Byte>, table: nat, limit: int, fuel: nat, d: Folder)
    requires d.Item? && d.node == 0 && Written(image, table, limit, d) && WellNamed(TreeOf(d))
      && fuel >= Height(TreeOf(d))
    ensures var r := ParseNode(image, table, limit, 0, "", map[], fuel);
      && r.status == Done
      && (forall e | e in Listing(TreeOf(d), "") :: e.0 in r.entries && r.entries[e.0] == e.1)
      && (forall p | p in r.entries :: (p, r.entries[p]) in Listing(TreeOf(d), ""))
      && ParentsPresent(r.entries)
  {
    hide Holds, ParseNode, Listing, Written, Named, WellNamed, Height, TreeOf, SlashFree, ParentsPresent;
    WellNamedIsNamed(d);
    WrittenIsHeld(image, table, limit, "", d);
    EntriesExact(image, table, limit, "", fuel, TreeOf(d));
    ParsedParents(image, table, limit, fuel, TreeOf(d));
  }

  // ---- An encoder ----

  /** Everything about a folder written in a table but the bytes: places, links and limits. */
  predicate LaidOut(table: int, limit: int, d: Folder)
    decreases d
  {
    match d
    case Nothing => true
    case Item(node, left, name, start, size, attributes, inside, right) =>
      && Encodable(d) && 0 <= table && 0 <= node && node % 4 == 0 && node + DIRENT + |name| <= limit
      && (if attributes / 0x10 % 2 == 1 && size != 0
            then inside.Item? && inside.node == 0 && LaidOut(start * SECTOR, size, inside)
            else inside == Nothing)
      && LaidOut(table, limit, left) && LaidOut(table, limit, right)
  }

  datatype Piece = Piece(at: int, bytes: seq<Byte>)

  /** The bytes of every entry of a folder and of the directories in it. */
  function Pieces(table: int, limit: int, d: Folder): seq<Piece>
    requires LaidOut(table, limit, d)
    decreases d
  {
    match d
    case Nothing => []
    case Item(node, left, name, start, size, attributes, inside, right) =>
      [Piece(table + node, Encoded(LinkTo(left), LinkTo(right), start, size, attributes, name))]
        + Pieces(table, limit, left)
        + (if inside == Nothing then [] else Pieces(start * SECTOR, size, inside))
        + Pieces(table, limit, right)
  }

  predicate Fits(pieces: seq<Piece>, length: int) {
    forall p | p in pieces :: 0 <= p.at && p.at + |p.bytes| <= length
  }

  predicate Apart(p: Piece, q: Piece) {
    p.at + |p.bytes| <= q.at || q.at + |q.bytes| <= p.at
  }

  predicate Disjoint(pieces: seq<Piece>) {
    forall i, j | 0 <= i < j < |pieces| :: Apart(pieces[i], pieces[j])
  }

  function Put(image: seq<Byte>, p: Piece): (r: seq<Byte>)
    requires 0 <= p.at && p.at + |p.bytes| <= |image|
    ensures |r| == |image|
  {
    image[..p.at] + p.bytes + image[p.at + |p.bytes|..]
  }

  /** The image with all pieces in their places. */
  function Encode(image: seq<Byte>, pieces: seq<Piece>): (r: seq<Byte>)
    requires Fits(pieces, |image|)
    ensures |r| == |image|
    decreases |pieces|
  {
    if pieces == [] then image else Encode(Put(image, pieces[0]), pieces[1..])
  }

  predicate Stands(image: seq<Byte>, p: Piece) {
    0 <= p.at && p.at + |p.bytes| <= |image| && image[p.at..p.at + |p.bytes|] == p.bytes
  }

  lemma PutStands(image: seq<Byte>, p: Piece)
    requires 0 <= p.at && p.at + |p.bytes| <= |image|
    ensures Stands(Put(image, p), p)
  {
  }

  lemma PutKeeps(image: seq<Byte>, p: Piece, q: Piece)
    requires 0 <= q.at && q.at + |q.bytes| <= |image| && Stands(image, p) && Apart(p, q)
    ensures Stands(Put(image, q), p)
  {
    var r := Put(image, q);
    assert r[p.at..p.at + |p.bytes|] == image[p.at..p.at + |p.bytes|];
  }

  lemma {:induction false} EncodeKeeps(image: seq<Byte>, pieces: seq<Piece>, p: Piece)
    requires Fits(pieces, |image|) && Stands(image, p) && forall q | q in pieces :: Apart(p, q)
    ensures Stands(Encode(image, pieces), p)
    decreases |pieces|
  {
    hide Stands, Apart, Put;
    if pieces != [] {
      PutKeeps(image, p, pieces[0]);
      EncodeKeeps(Put(image, pieces[0]), pieces[1..], p);
    }
  }

  lemma {:induction false} EncodeStands(image: seq<Byte>, pieces: seq<Piece>)
    requires Fits(pieces, |image|) && Disjoint(pieces)
    ensures forall p | p in pieces :: Stands(Encode(image, pieces), p)
    decreases |pieces|
  {
    hide Stands, Apart, Put;
    if pieces != [] {
      var (first, rest) := (pieces[0], pieces[1..]);
      PutStands(image, first);
      forall q | q in rest ensures Apart(first, q) {
        var j :| 0 <= j < |rest| && rest[j] == q;
        assert pieces[0] == first && pieces[j + 1] == q;
      }
      EncodeKeeps(Put(image, first), rest, first);
      EncodeStands(Put(image, first), rest);
      assert forall p | p in pieces :: p == first || p in rest;
    }
  }

  /** A folder is written where its pieces stand. */
  lemma {:induction false} PiecesWritten(image: seq<Byte>, table: int, limit: int, d: Folder)
    requires LaidOut(table, limit, d) && forall p | p in Pieces(table, limit, d) :: Stands(image, p)
    ensures Written(image, table, limit, d)
    decreases d
  {
    hide Encoded;
    if d.Item? {
      var p := Piece(table + d.node, Encoded(LinkTo(d.left), LinkTo(d.right), d.start, d.size, d.attributes, d.name));
      assert p in Pieces(table, limit, d) && Stands(image, p);
      PiecesWritten(image, table, limit, d.left);
      PiecesWritten(image, table, limit, d.right);
      if d.inside.Item? { PiecesWritten(image, d.start * SECTOR, d.size, d.inside); }
    }
  }

  /** Every folder that is laid out without overlaps has an image in which it is written. */
  lemma EncodedIsWritten(image: seq<Byte>, table: int, limit: int, d: Folder)
    requires LaidOut(table, limit, d) && Disjoint(Pieces(table, limit, d)) && Fits(Pieces(table, limit, d), |image|)
    ensures Written(Encode(image, Pieces(table, limit, d)), table, limit, d)
  {
    hide Pieces, Written, LaidOut, Encode;
    EncodeStands(image, Pieces(table, limit, d));
    PiecesWritten(Encode(image, Pieces(table, limit, d)), table, limit, d);
  }

  /** Encoding such a folder with distinct, slash-free names and parsing the image gives exactly its flattened map. */
  lemma EncodedParsesExact(image: seq<Byte>, table: nat, limit: int, fuel: nat, d: Folder)
    requires d.Item? && d.node == 0 && WellNamed(TreeOf(d)) && fuel >= Height(TreeOf(d))
    requires LaidOut(table, limit, d) && Disjoint(Pieces(table, limit, d)) && Fits(Pieces(table, limit, d), |image|)
    ensures var r := ParseNode(Encode(image, Pieces(table, limit, d)), table, limit, 0, "", map[], fuel);
      && r.status == Done
      && (forall e | e in Listing(TreeOf(d), "") :: e.0 in r.entries && r.entries[e.0] == e.1)
      && (forall p | p in r.entries :: (p, r.entries[p]) in Listing(TreeOf(d), ""))
      && ParentsPresent(r.entries)
  {
    hide Pieces, Written, LaidOut, Encode, Disjoint, Fits, WellNamed, Height, TreeOf, ParseNode, Listing;
    hide ParentsPresent;
    EncodedIsWritten(image, table, limit, d);
    WrittenExact(Encode(image, Pieces(table, limit, d)), table, limit, fuel, d);
  }

  const INNER := Item(0, Nothing, [66], 40, 7, 0, Nothing, Nothing)

  /** A file in a directory. */
  const NESTED := Item(0, Nothing, [65], 33, SECTOR, 0x10, INNER, Nothing)

  lemma NestedPieces()
    ensures LaidOut(33 * SECTOR, SECTOR, INNER) && LaidOut(32 * SECTOR, SECTOR, NESTED)
    ensures var pieces := Pieces(32 * SECTOR, SECTOR, NESTED);
      && |pieces| == 2 && pieces[0].at == 32 * SECTOR && pieces[1].at == 33 * SECTOR
      && |pieces[0].bytes| == 15 && |pieces[1].bytes| == 15
  {
    hide Encoded;
    assert LaidOut(33 * SECTOR, SECTOR, INNER);
    assert LaidOut(32 * SECTOR, SECTOR, NESTED);
    var inner := Pieces(33 * SECTOR, SECTOR, INNER);
    assert inner == [Piece(33 * SECTOR, Encoded(0, 0, 40, 7, 0, [66]))];
    assert Pieces(32 * SECTOR, SECTOR, NESTED) == [Piece(32 * SECTOR,
                                                         Encoded(0, 0, 33, SECTOR, 0x10, [65]))] + [] + inner + [];
  }

  lemma NestedNames()
    ensures Normalized(Text([65])) == "a" && Normalized(Text([66])) == "b"
  {
    assert Text([65]) == "A" && Text([66]) == "B";
    assert Folded("A") == "a" && Folded("B") == "b";
  }

  lemma NestedTree()
    ensures TreeOf(NESTED)
         == Node(Leaf, Text([65]), FileEntry(33, SECTOR, true),
                 Node(Leaf, Text([66]), FileEntry(40, 7, false), Leaf, Leaf), Leaf)
  {
    hide Text;
    assert TreeOf(INNER) == Node(Leaf, Text([66]), FileEntry(40, 7, false), Leaf, Leaf);
  }

  /** One such folder, with a directory in it. */
  lemma NestedExists()
    ensures LaidOut(32 * SECTOR, SECTOR, NESTED) && Disjoint(Pieces(32 * SECTOR, SECTOR, NESTED))
    ensures Fits(Pieces(32 * SECTOR, SECTOR, NESTED), 34 * SECTOR) && WellNamed(TreeOf(NESTED))
    ensures Listing(TreeOf(NESTED), "") == [("a", FileEntry(33, SECTOR, true)), ("a/b", FileEntry(40, 7, false))]
  {
    NestedPieces();
    NestedNames();
    NestedTree();
    hide Pieces, LaidOut, Normalized, Text, TreeOf;
    var inner := Node(Leaf, Text([66]), FileEntry(40, 7, false), Leaf, Leaf);
    assert "" + "a" == "a" && "a" + "/" == "a/" && "a/" + "b" == "a/b" && Listing(Leaf, "a/b/") == [];
    assert WellNamed(inner);
    assert Listing(inner, "a/") == [] + [("a/b", FileEntry(40, 7, false))] + [] + [];
    assert Listing(TreeOf(NESTED), "") == [] + [("a", FileEntry(33, SECTOR, true))] + Listing(inner, "a" + "/") + [];
  }
}
