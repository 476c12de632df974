/**
  Opening paths: component by component from a directory down, each name looked
  up in the listing of the directory reached so far.
 */
module FatOpen {
  import opened Common
  import opened FatVolume
  import opened FatFile
  import opened FatDirectory

  /** Whether a path component names an entry. */
  type Matcher = (string, Entry) -> bool

  datatype FileStart = FileStart(cluster: nat, size: nat)

  /** An open file or directory, its entry, and the entry of the directory it was found in. */
  datatype Opened = Opened(entry: Entry, file: Option<FileStart>, dir: Option<Place>, parent: Option<Entry>)

  /** The slots of every directory of the volume. */
  type Tree = map<Place, seq<Slot>>

  function RootPlace(v: Volume): Place {
    if v.fatType == FAT32 then Clustered(v.rootCluster)
    else Fixed(if v.firstDataSector < v.rootDirSectors then 0 else v.firstDataSector - v.rootDirSectors)
  }

  function Root(v: Volume): Opened {
    Opened(Entry(Zeros(12), true, 0, if v.fatType == FAT32 then v.rootCluster else 0, Blank(), 0x30),
           None, Some(RootPlace(v)), None)
  }

  /** Where a directory starts after it has been reset. */
  function AfterReset(place: Place): Place {
    if place.Fixed? then Fixed(0) else place
  }

  function Entries(tree: Tree, place: Place): seq<Entry> {
    if place in tree then Listing(Readable(tree[place]), Blank()) else []
  }

  /** Reading the directory to its end stops the program. */
  predicate IsStuck(tree: Tree, place: Place) {
    place in tree && FirstBad(tree[place]) < |tree[place]|
  }

  ghost predicate PlaceOk(v: Volume, tree: Tree, place: Place) {
    place in tree ==>
      && HoldsSlots(v, place, tree[place])
      && forall e :: e in Entries(tree, place) && e.isDirectory && e.cluster != 0 ==> Clustered(e.cluster) in tree
  }

  /** The tree holds every directory that can be reached by names. */
  ghost predicate TreeOk(v: Volume, tree: Tree) {
    && v.fatType != Unknown && v.rootDirSectors <= v.firstDataSector
    && RootPlace(v) in tree && AfterReset(RootPlace(v)) in tree
    && forall place: Place {:trigger PlaceOk(v, tree, place)} :: PlaceOk(v, tree, place)
  }

  /** Index of the first entry with the name, or the length when there is none. */
  function FirstIndex(es: seq<Entry>, same: Matcher, name: string): (i: nat)
    ensures i <= |es| && (i < |es| ==> same(name, es[i]))
    ensures forall j :: 0 <= j < i ==> !same(name, es[j])
  {
    if es == [] || same(name, es[0]) then 0 else 1 + FirstIndex(es[1..], same, name)
  }

  function FirstMatch(es: seq<Entry>, same: Matcher, name: string): (r: Option<Entry>)
    ensures r.Some? ==> r.value in es && same(name, r.value)
    ensures r.None? ==> forall e :: e in es ==> !same(name, e)
  {
    var i := FirstIndex(es, same, name);
    if i < |es| then Some(es[i]) else None
  }

  /** Looking up a name: the first entry with it, or what happens at the end of the directory. */
  function Search(tree: Tree, place: Place, same: Matcher, name: string): IoResult<Entry> {
    match FirstMatch(Entries(tree, place), same, name)
    case Some(e) => Ok(e)
    case None => Err(if IsStuck(tree, place) then Panicked else EndOfFile)
  }

  function Find(s: string, c: char): (r: Option<nat>)
    ensures r.Some? ==> r.value < |s| && s[r.value] == c && c !in s[..r.value]
    ensures r.None? ==> c !in s
  {
    if s == [] then None
    else if s[0] == c then Some(0)
    else match Find(s[1..], c)
         case None => None
         case Some(i) => Some(i + 1)
  }

  /** The first slash, or without any slash the first backslash. */
  function Separator(s: string): (r: Option<nat>)
    ensures r.Some? ==> r.value < |s|
  {
    if Find(s, '/').Some? then Find(s, '/') else Find(s, '\\')
  }

  function Head(path: string): string {
    match Separator(path)
    case None => path
    case Some(x) => path[..x]
  }

  function Tail(path: string): (t: string)
    ensures path != "" ==> |t| < |path|
  {
    match Separator(path)
    case None => ""
    case Some(x) => path[x+1..]
  }

  /** Follows a path from a directory; a file ends the walk, whatever is left of the path. */
  function Walk(v: Volume, tree: Tree, same: Matcher, cur: Place, entry: Entry, parent: Option<Entry>,
      path: string): IoResult<Opened>
    decreases |path|
  {
    if path == "" then Ok(Opened(entry, None, Some(cur), parent))
    else if Head(path) == "" then Ok(Opened(entry, None, Some(cur), None))
    else match Search(tree, cur, same, Head(path))
         case Err(e) => Err(if e == EndOfFile then NotFound else e)
         case Ok(e) =>
           if !e.isDirectory then Ok(Opened(e, Some(FileStart(e.cluster, e.size)), None, None))
           else if e.cluster == 0 then Walk(v, tree, same, RootPlace(v), Root(v).entry, None, Tail(path))
           else Walk(v, tree, same, Clustered(e.cluster), e, Some(entry), Tail(path))
  }

  /**
    The directory a directory's own ".." entry points to. Its entry is the parent
    entry remembered when the directory was opened; without one the program stops.
   */
  function Parent(v: Volume, tree: Tree, same: Matcher, f: Opened): IoResult<Opened> {
    if f.dir.None? then Err(NotFound)
    else match Search(tree, AfterReset(f.dir.value), same, "..")
         case Err(e) => Err(e)
         case Ok(e) =>
           if !e.isDirectory then Err(BlockError)
           else if e.cluster == 0 then Ok(Root(v))
           else if f.parent.None? then Err(Panicked)
           else Ok(Opened(f.parent.value, None, Some(Clustered(e.cluster)), None))
  }

  predicate IsAbsolute(path: string) {
    Separator(path) == Some(0)
  }

  function Open(v: Volume, tree: Tree, same: Matcher, f: Opened, path: string): IoResult<Opened> {
    if path == "." then Ok(f)
    else if path == ".." then Parent(v, tree, same, f)
    else
      var from := if IsAbsolute(path) then Root(v) else f;
      if from.dir.None? then Err(Unsupported)
      else
        var rest := if IsAbsolute(path) then path[1..] else path;
        Walk(v, tree, same, AfterReset(from.dir.value), from.entry, None, rest)
  }

  // ---------------------------------------------------------------------------
  // Paths compose
  // ---------------------------------------------------------------------------

  function Other(sep: char): char {
    if sep == '/' then '\\' else '/'
  }

  /** Non-empty components joined by one kind of separator. */
  predicate Plain(path: string, sep: char) {
    && (sep == '/' || sep == '\\') && Other(sep) !in path
    && path != "" && path[0] != sep && path[|path|-1] != sep
    && forall i :: 0 <= i < |path| - 1 ==> !(path[i] == sep && path[i+1] == sep)
  }

  lemma SeparatorOfPlain(path: string, sep: char)
    requires (sep == '/' || sep == '\\') && Other(sep) !in path
    ensures Separator(path) == Find(path, sep)
  {
  }

  lemma {:induction false} FindInJoin(p: string, c: char, rest: string)
    ensures Find(p + [c] + rest, c) == if c in p then Find(p, c) else Some(|p|)
  {
    var s := p + [c] + rest;
    if p != "" {
      assert s[1..] == p[1..] + [c] + rest;
      FindInJoin(p[1..], c, rest);
      assert c in p <==> p[0] == c || c in p[1..];
    }
  }

  lemma SeparatorOfJoin(p: string, sep: char, q: string)
    requires (sep == '/' || sep == '\\') && Other(sep) !in p && Other(sep) !in q
    ensures Separator(p) == Find(p, sep)
    ensures Separator(p + [sep] + q) == if sep in p then Find(p, sep) else Some(|p|)
  {
    hide Find;
    assert Other(sep) !in p + [sep] + q;
    SeparatorOfPlain(p, sep);
    SeparatorOfPlain(p + [sep] + q, sep);
    FindInJoin(p, sep, q);
  }

  /** Splitting off the first component of p/q. */
  lemma {:induction false} HeadOfJoin(p: string, sep: char, q: string)
    requires Plain(p, sep) && Plain(q, sep)
    ensures var s := p + [sep] + q;
            && s != "" && Head(s) == Head(p) != ""
            && Tail(s) == if sep in p then Tail(p) + [sep] + q else q
  {
    hide Find, Separator;
    var s := p + [sep] + q;
    SeparatorOfJoin(p, sep, q);
    if sep in p {
      var x := Find(p, sep).value;
      assert s[..x] == p[..x] && s[x+1..] == p[x+1..] + [sep] + q;
      assert x > 0;
    } else {
      assert s[..|p|] == p && s[|p|+1..] == q;
    }
  }

  lemma TailOfPlain(p: string, sep: char)
    requires Plain(p, sep)
    ensures Head(p) != "" && (sep in p ==> Plain(Tail(p), sep)) && (sep !in p ==> Tail(p) == "")
  {
    SeparatorOfPlain(p, sep);
    if sep in p {
      var x := Find(p, sep).value;
      var t := p[x+1..];
      assert x > 0 && x < |p| - 1;
      assert t[0] == p[x+1];
      assert forall i :: 0 <= i < |t| ==> t[i] == p[x+1+i];
    }
  }

  /** The parent entry handed down only matters for an empty rest of the path. */
  lemma ParentIsForgotten(v: Volume, tree: Tree, same: Matcher, cur: Place, entry: Entry,
      parent: Option<Entry>, q: string, sep: char)
    requires Plain(q, sep)
    ensures Walk(v, tree, same, cur, entry, parent, q) == Walk(v, tree, same, cur, entry, None, q)
  {
    TailOfPlain(q, sep);
  }

  /** Following p/q is following p and then, from the directory reached, q. */
  lemma {:induction false} WalkComposes(v: Volume, tree: Tree, same: Matcher,
      cur: Place, entry: Entry, parent: Option<Entry>, p: string, q: string, sep: char)
    requires Plain(p, sep) && Plain(q, sep)
    ensures var first := Walk(v, tree, same, cur, entry, parent, p);
            Walk(v, tree, same, cur, entry, parent, p + [sep] + q) ==
            if first.Ok? && first.value.dir.Some?
            then Walk(v, tree, same, first.value.dir.value, first.value.entry, None, q)
            else first
    decreases |p|
  {
    HeadOfJoin(p, sep, q);
    TailOfPlain(p, sep);
    match Search(tree, cur, same, Head(p))
    case Err(_) =>
    case Ok(e) =>
      if e.isDirectory {
        var next, ent, par :=
          if e.cluster == 0 then RootPlace(v) else Clustered(e.cluster),
          if e.cluster == 0 then Root(v).entry else e,
          if e.cluster == 0 then None else Some(entry);
        if sep in p {
          WalkComposes(v, tree, same, next, ent, par, Tail(p), q, sep);
        } else {
          ParentIsForgotten(v, tree, same, next, ent, par, q, sep);
        }
      }
  }

  lemma JoinStaysAbsolute(p: string, sep: char, q: string)
    requires (Plain(p, sep) || (p != "" && p[0] == sep && Plain(p[1..], sep))) && Plain(q, sep)
    ensures IsAbsolute(p + [sep] + q) <==> IsAbsolute(p)
    ensures IsAbsolute(p) <==> p[0] == sep
    ensures !IsAbsolute(q)
  {
    var s := p + [sep] + q;
    assert p[0] == sep ==> p == [sep] + p[1..];
    assert Other(sep) !in p && Other(sep) !in s;
    SeparatorOfPlain(p, sep);
    SeparatorOfPlain(s, sep);
    SeparatorOfPlain(q, sep);
    FindInJoin(p, sep, q);
  }

  /** A path that names something by components, possibly from the root. */
  predicate IsPathOf(p: string, sep: char) {
    (Plain(p, sep) || (p != "" && p[0] == sep && Plain(p[1..], sep))) && p != "." && p != ".."
  }

  /**
    Opening p/q walks q from the directory that p leads to, while opening p and
    then q walks it from where a reset puts that directory. Where p leads to an
    error or a file, q is never looked at. So both give the same entry, file,
    directory and parent entry whenever a reset leaves the directory in place.
   */
  lemma OpenComposes(v: Volume, tree: Tree, same: Matcher, f: Opened, p: string, q: string, sep: char)
    requires IsPathOf(p, sep) && Plain(q, sep) && q != "." && q != ".."
    ensures var o, both := Open(v, tree, same, f, p), Open(v, tree, same, f, p + [sep] + q);
            if o.Ok? && o.value.dir.Some? then
              && both == Walk(v, tree, same, o.value.dir.value, o.value.entry, None, q)
              && Open(v, tree, same, o.value, q)
                 == Walk(v, tree, same, AfterReset(o.value.dir.value), o.value.entry, None, q)
            else both == o
  {
    JoinStaysAbsolute(p, sep, q);
    var s := p + [sep] + q;
    var from := if p[0] == sep then Root(v) else f;
    if from.dir.Some? {
      var body := if p[0] == sep then p[1..] else p;
      assert (if p[0] == sep then s[1..] else s) == body + [sep] + q;
      assert s != "." && s != ".." by { assert |s| >= 3; }
      hide Walk;
      WalkComposes(v, tree, same, AfterReset(from.dir.value), from.entry, None, body, q, sep);
    }
  }

  predicate IsName(name: string) {
    name != "" && '/' !in name && '\\' !in name
  }

  /** Two lookups lead to the same place: the same entry, or both times the root. */
  predicate Alike(a: IoResult<Entry>, b: IoResult<Entry>) {
    || a == b
    || (a.Ok? && b.Ok? && a.value.isDirectory && b.value.isDirectory && a.value.cluster == b.value.cluster == 0)
  }

  /**
    For a single name, opening p/name is opening p and then name exactly when the
    name leads to the same place in the directory reached and in the directory
    as a reset leaves it.
   */
  lemma OpenComposesIff(v: Volume, tree: Tree, same: Matcher, f: Opened, p: string, name: string, sep: char)
    requires IsPathOf(p, sep) && Plain(name, sep) && IsName(name) && name != "." && name != ".."
    ensures var o := Open(v, tree, same, f, p);
            o.Ok? && o.value.dir.Some? ==>
              (Open(v, tree, same, f, p + [sep] + name) == Open(v, tree, same, o.value, name)
               <==> Alike(Search(tree, o.value.dir.value, same, name),
                          Search(tree, AfterReset(o.value.dir.value), same, name)))
  {
    hide Open, Walk, Plain;
    OpenComposes(v, tree, same, f, p, name, sep);
    var o := Open(v, tree, same, f, p);
    if o.Ok? && o.value.dir.Some? {
      var place := o.value.dir.value;
      WalkOneName(v, tree, same, place, o.value.entry, None, name);
      WalkOneName(v, tree, same, AfterReset(place), o.value.entry, None, name);
    }
  }

  lemma WalkOneName(v: Volume, tree: Tree, same: Matcher, cur: Place, entry: Entry, parent: Option<Entry>, name: string)
    requires IsName(name)
    ensures Separator(name) == None
    ensures Walk(v, tree, same, cur, entry, parent, name) ==
            match Search(tree, cur, same, name)
            case Err(e) => Err(if e == EndOfFile then NotFound else e)
            case Ok(e) =>
              if !e.isDirectory then Ok(Opened(e, Some(FileStart(e.cluster, e.size)), None, None))
              else if e.cluster == 0 then Ok(Opened(Root(v).entry, None, Some(RootPlace(v)), None))
              else Ok(Opened(e, None, Some(Clustered(e.cluster)), Some(entry)))
  {
    hide Search;
    assert Separator(name) == None;
    assert Head(name) == name && Tail(name) == "";
  }

  // ---------------------------------------------------------------------------
  // Directories that survive a reset
  // ---------------------------------------------------------------------------

  lemma {:induction false} WalkStaysClustered(v: Volume, tree: Tree, same: Matcher,
      cur: Place, entry: Entry, parent: Option<Entry>, path: string)
    requires v.fatType == FAT32 && cur.Clustered?
    ensures var o := Walk(v, tree, same, cur, entry, parent, path);
            o.Ok? && o.value.dir.Some? ==> o.value.dir.value.Clustered?
    decreases |path|
  {
    if path != "" && Head(path) != "" {
      match Search(tree, cur, same, Head(path))
      case Err(_) =>
      case Ok(e) =>
        if e.isDirectory {
          if e.cluster == 0 {
            WalkStaysClustered(v, tree, same, RootPlace(v), Root(v).entry, None, Tail(path));
          } else {
            WalkStaysClustered(v, tree, same, Clustered(e.cluster), e, Some(entry), Tail(path));
          }
        }
    }
  }

  /** On FAT32 every path composes. */
  lemma OpenComposesOnFat32(v: Volume, tree: Tree, same: Matcher, f: Opened, p: string, q: string, sep: char)
    requires v.fatType == FAT32 && (f.dir.Some? ==> f.dir.value.Clustered?)
    requires IsPathOf(p, sep) && Plain(q, sep) && q != "." && q != ".."
    ensures var o := Open(v, tree, same, f, p);
            Open(v, tree, same, f, p + [sep] + q) ==
            if o.Ok? && o.value.dir.Some? then Open(v, tree, same, o.value, q) else o
  {
    var from := if IsAbsolute(p) then Root(v) else f;
    if from.dir.Some? {
      WalkStaysClustered(v, tree, same, from.dir.value, from.entry, None, if IsAbsolute(p) then p[1..] else p);
    }
    OpenComposes(v, tree, same, f, p, q, sep);
  }

  /**
    An absolute path is looked up in the root directory as it is after a reset:
    its own listing on FAT32, but the slots from sector 0 on otherwise.
   */
  lemma AbsoluteLookup(v: Volume, tree: Tree, same: Matcher, f: Opened, name: string)
    requires IsName(name)
    ensures Open(v, tree, same, f, "/" + name).Ok?
            <==> FirstMatch(Entries(tree, AfterReset(RootPlace(v))), same, name).Some?
    ensures AfterReset(RootPlace(v)) == RootPlace(v)
            <==> v.fatType == FAT32 || v.firstDataSector <= v.rootDirSectors
  {
    var path := "/" + name;
    assert path[1..] == name;
    assert Separator(path) == Some(0);
    assert |path| >= 2 && path[0] == '/';
    WalkOneName(v, tree, same, AfterReset(RootPlace(v)), Root(v).entry, None, name);
  }

  /** The directory an entry for a directory leads to. */
  function PlaceOfEntry(v: Volume, e: Entry): Place {
    if e.cluster == 0 then RootPlace(v) else Clustered(e.cluster)
  }

  /**
    Going into a subdirectory and up again leads back to the directory one came
    from exactly when the subdirectory has a ".." entry for a directory that
    points there. The entry is then the one of that directory, or of the root.
   */
  lemma DownAndUp(v: Volume, tree: Tree, same: Matcher, f: Opened, name: string)
    requires IsName(name) && name != "." && name != ".." && f.dir.Some?
    requires var e := Search(tree, AfterReset(f.dir.value), same, name);
             e.Ok? && e.value.isDirectory && e.value.cluster != 0
    ensures var e := Search(tree, AfterReset(f.dir.value), same, name).value;
            var up := Search(tree, Clustered(e.cluster), same, "..");
            var down := Opened(e, None, Some(Clustered(e.cluster)), Some(f.entry));
            && Open(v, tree, same, f, name) == Ok(down)
            && (Open(v, tree, same, down, "..").Ok? <==> up.Ok? && up.value.isDirectory)
            && (up.Ok? && up.value.isDirectory ==>
                  var back := Open(v, tree, same, down, "..").value;
                  && back.dir == Some(PlaceOfEntry(v, up.value)) && back.file == None && back.parent == None
                  && back.entry == (if up.value.cluster == 0 then Root(v).entry else f.entry)
                  && (back.dir == f.dir <==> PlaceOfEntry(v, up.value) == f.dir.value))
  {
    hide Walk, Search;
    WalkOneName(v, tree, same, AfterReset(f.dir.value), f.entry, None, name);
  }

  /** A directory's ".." entry leads to a directory other than the root. */
  predicate LeadsUp(tree: Tree, place: Place, same: Matcher) {
    var up := Search(tree, place, same, "..");
    up.Ok? && up.value.isDirectory && up.value.cluster != 0
  }

  /**
    Going up stops the program exactly when the ".." entry leads to a directory
    other than the root and no parent entry is remembered, or when a bad slot is
    met before a ".." entry.
   */
  lemma UpPanicsIff(v: Volume, tree: Tree, same: Matcher, f: Opened)
    ensures Open(v, tree, same, f, "..") == Err(Panicked) <==>
            && f.dir.Some?
            && var place := AfterReset(f.dir.value);
               || (LeadsUp(tree, place, same) && f.parent == None)
               || (IsStuck(tree, place) && FirstMatch(Entries(tree, place), same, "..") == None)
  {
  }

  /** Going up forgets the parent entry, so going up again stops the program unless that leads to the root. */
  lemma UpTwice(v: Volume, tree: Tree, same: Matcher, f: Opened)
    requires Open(v, tree, same, f, "..").Ok?
    ensures var g := Open(v, tree, same, f, "..").value;
            && g.parent == None && g.dir.Some?
            && (LeadsUp(tree, AfterReset(g.dir.value), same) ==> Open(v, tree, same, g, "..") == Err(Panicked))
  {
    UpPanicsIff(v, tree, same, Open(v, tree, same, f, "..").value);
  }

  /** The slot of an entry for a directory at a cluster. */
  function DirectorySlot(cluster: byte): Slot {
    [0x2e, 0x2e] + Blanks(9) + [0x10] + Zeros(14) + [cluster] + Zeros(5)
  }

  function FileSlot(): Slot {
    [0x41] + Blanks(10) + [0x20] + Zeros(20)
  }

  function Blanks(n: nat): (b: seq<byte>)
    ensures |b| == n
  {
    seq(n, _ => 32)
  }

  lemma OneSlot(tree: Tree, place: Place, same: Matcher, name: string, s: Slot)
    requires place in tree && tree[place] == [s] && !IsEnd(s) && !IsDeleted(s) && !IsLongName(s)
    requires same(name, MakeEntry(s, Blank()))
    ensures Search(tree, place, same, name) == Ok(MakeEntry(s, Blank()))
  {
    assert [s][1..] == [] && FirstBad([s][1..]) == 0 && FirstBad([s]) == 1;
    assert Readable([s]) == [s];
    assert Listing([s][1..], Blank()) == [];
    assert Listing([s], Blank()) == [MakeEntry(s, Blank())];
    assert FirstIndex([MakeEntry(s, Blank())], same, name) == 0;
  }

  lemma DirectoryEntry(cluster: byte)
    ensures var s, e := DirectorySlot(cluster), MakeEntry(DirectorySlot(cluster), Blank());
            && !IsEnd(s) && !IsDeleted(s) && !IsLongName(s) && e.isDirectory && e.cluster == cluster
  {
    var s := DirectorySlot(cluster);
    assert s[0] == 0x2e && s[11] == 0x10 && s[20] == 0 && s[21] == 0 && s[26] == cluster && s[27] == 0;
  }

  function UpExample(): Tree {
    map[Clustered(5) := [DirectorySlot(4)], Clustered(4) := [DirectorySlot(3)]]
  }

  function MatchAll(): Matcher {
    (name, e) => true
  }

  lemma UpOne(v: Volume, tree: Tree, f: Opened, cluster: byte)
    requires f.dir.Some? && f.dir.value.Clustered? && cluster != 0
    requires f.dir.value in tree && tree[f.dir.value] == [DirectorySlot(cluster)]
    ensures Open(v, tree, MatchAll(), f, "..") ==
            if f.parent == None then Err(Panicked)
            else Ok(Opened(f.parent.value, None, Some(Clustered(cluster)), None))
  {
    hide Search, DirectorySlot, MakeEntry, Walk, IsAbsolute, Root, RootPlace, Blank;
    DirectoryEntry(cluster);
    OneSlot(tree, f.dir.value, MatchAll(), "..", DirectorySlot(cluster));
  }

  /** From the directory at cluster 5 up to the one at 4, and from there up to 3, which stops the program. */
  lemma UpTwiceExample(v: Volume, entry: Entry, parent: Entry)
    ensures var f := Opened(entry, None, Some(Clustered(5)), Some(parent));
            var g := Opened(parent, None, Some(Clustered(4)), None);
            && Open(v, UpExample(), MatchAll(), f, "..") == Ok(g)
            && Open(v, UpExample(), MatchAll(), g, "..") == Err(Panicked)
  {
    hide Open, DirectorySlot;
    UpOne(v, UpExample(), Opened(entry, None, Some(Clustered(5)), Some(parent)), 4);
    UpOne(v, UpExample(), Opened(parent, None, Some(Clustered(4)), None), 3);
  }

  lemma FileEntry()
    ensures var s, e := FileSlot(), MakeEntry(FileSlot(), Blank());
            !IsEnd(s) && !IsDeleted(s) && !IsLongName(s) && !e.isDirectory
  {
    var s := FileSlot();
    assert s[0] == 0x41 && s[11] == 0x20;
  }

  /** A volume of the older kinds whose root directory is not at sector 0. */
  function RootExample(v: Volume): Tree {
    map[Fixed(0) := [DirectorySlot(5)], Clustered(5) := [DirectorySlot(0)], RootPlace(v) := [FileSlot()]]
  }

  /** "a/.." leads to the root, where "x" names a file; from the root as a reset leaves it, "x" names a directory. */
  lemma OpenComposesExample(v: Volume)
    requires v.fatType == FAT16 && v.rootDirSectors < v.firstDataSector
    ensures var o := Open(v, RootExample(v), MatchAll(), Root(v), "a/..");
            && o == Ok(Root(v))
            && Open(v, RootExample(v), MatchAll(), Root(v), "a/../x")
               != Open(v, RootExample(v), MatchAll(), o.value, "x")
  {
    var tree, root, same := RootExample(v), Root(v), MatchAll();
    hide Search, DirectorySlot, FileSlot, MakeEntry, Walk;
    DirectoryEntry(5);
    DirectoryEntry(0);
    FileEntry();
    OneSlot(tree, Fixed(0), same, "a", DirectorySlot(5));
    OneSlot(tree, Clustered(5), same, "..", DirectorySlot(0));
    OneSlot(tree, Fixed(0), same, "x", DirectorySlot(5));
    OneSlot(tree, RootPlace(v), same, "x", FileSlot());
    var e := MakeEntry(DirectorySlot(5), Blank());
    WalkOneName(v, tree, same, Fixed(0), root.entry, None, "a");
    WalkOneName(v, tree, same, Clustered(5), e, None, "..");
    assert "a/.." == "a" + ['/'] + ".." && "a/../x" == "a/.." + ['/'] + "x";
    WalkComposes(v, tree, same, Fixed(0), root.entry, None, "a", "..", '/');
    assert "a/.."[1] == '/';
    assert !IsAbsolute("a/..");
    OpenComposesIff(v, tree, same, root, "a/..", "x", '/');
  }

  // ---------------------------------------------------------------------------
  // The loops
  // ---------------------------------------------------------------------------

  lemma FirstMatchStep(es: seq<Entry>, same: Matcher, name: string, e: Entry, rest: seq<Entry>)
    requires es == [e] + rest
    ensures FirstMatch(es, same, name) == if same(name, e) then Some(e) else FirstMatch(rest, same, name)
  {
    assert es[1..] == rest;
    assert FirstIndex(es, same, name) == if same(name, e) then 0 else 1 + FirstIndex(rest, same, name);
  }

  lemma NothingMatches(same: Matcher, name: string)
    ensures FirstMatch([], same, name) == None
  {
  }

  /** Reads entries until one has the name. */
  method Lookup(d: Directory, same: Matcher, name: string) returns (r: IoResult<Entry>)
    requires d.Valid()
    modifies d, d.device
    ensures d.device.Ran()
    ensures r == if d.device.failures > old(d.device.failures) then Err(BlockError)
                 else match FirstMatch(old(d.Rest()), same, name)
                      case None => Err(if FirstBad(d.slots) < |d.slots| then Panicked else EndOfFile)
                      case Some(e) => Ok(e)
  {
    hide Listing, Directory.Valid, FirstMatch;
    ghost var all := d.Rest();
    while true
      invariant d.Valid() && d.device.Ran() && d.device.failures == old(d.device.failures)
      invariant FirstMatch(all, same, name) == FirstMatch(d.Rest(), same, name)
      decreases |d.Rest()|
    {
      ghost var before := d.Rest();
      ghost var gathered;
      r, gathered := d.NextEntry();
      if r.Err? {
        if r != Err(BlockError) {
          assert before == [];
          NothingMatches(same, name);
        }
        return;
      }
      FirstMatchStep(before, same, name, r.value, d.Rest());
      if same(name, r.value) {
        return;
      }
    }
  }

  method OpenDirectory(v: Volume, dev: Device, place: Place, ghost slots: seq<Slot>) returns (d: Directory)
    requires HoldsSlots(v, place, slots)
    ensures fresh(d) && d.Valid() && d.device == dev && d.slots == slots
    ensures d.Rest() == Listing(Readable(slots), Blank())
  {
    if place.Clustered? {
      d := new Directory.OfCluster(v, dev, place.first, slots);
    } else {
      d := new Directory.OfRun(v, dev, place.sector, slots);
    }
    assert Readable(slots)[0..] == Readable(slots);
  }

  lemma PlaceInTree(v: Volume, tree: Tree, place: Place, same: Matcher, name: string)
    requires TreeOk(v, tree) && place in tree
    ensures HoldsSlots(v, place, tree[place])
    ensures var e := FirstMatch(Entries(tree, place), same, name);
            e.Some? && e.value.isDirectory ==>
              (if e.value.cluster == 0 then RootPlace(v) else Clustered(e.value.cluster)) in tree
  {
    hide HoldsSlots;
    assert PlaceOk(v, tree, place);
  }

  /** The loop over the components of a path. */
  method WalkPath(v: Volume, dev: Device, same: Matcher, start: Place, entry: Entry, path: string, ghost tree: Tree)
    returns (r: IoResult<Opened>)
    requires TreeOk(v, tree) && start in tree
    modifies dev
    ensures dev.Ran()
    ensures r == if dev.failures == old(dev.failures) then Walk(v, tree, same, start, entry, None, path)
                 else Err(BlockError)
  {
    hide TreeOk, HoldsSlots, Listing, FirstMatch, Separator, Directory.Valid;
    var cur, current, parent, residual := start, entry, None, path;
    while true
      invariant cur in tree && dev.Ran() && dev.failures == old(dev.failures)
      invariant Walk(v, tree, same, cur, current, parent, residual) == Walk(v, tree, same, start, entry, None, path)
      decreases |residual|
    {
      if residual == "" {
        return Ok(Opened(current, None, Some(cur), parent));
      }
      var sub := Head(residual);
      if sub == "" {
        return Ok(Opened(current, None, Some(cur), None));
      }
      PlaceInTree(v, tree, cur, same, sub);
      var d := OpenDirectory(v, dev, cur, tree[cur]);
      var found := Lookup(d, same, sub);
      match found {
        case Err(EndOfFile) =>
          return Err(NotFound);
        case Err(e) =>
          return Err(e);
        case Ok(e) =>
          if !e.isDirectory {
            return Ok(Opened(e, Some(FileStart(e.cluster, e.size)), None, None));
          }
          if e.cluster == 0 {
            cur, current, parent := RootPlace(v), Root(v).entry, None;
          } else {
            cur, current, parent := Clustered(e.cluster), e, Some(current);
          }
          residual := Tail(residual);
      }
    }
  }

  /** Looks up "..", and stops the program when the parent entry it needs is not there. */
  method OpenParent(v: Volume, dev: Device, same: Matcher, f: Opened, ghost tree: Tree) returns (r: IoResult<Opened>)
    requires TreeOk(v, tree) && (f.dir.Some? ==> AfterReset(f.dir.value) in tree)
    modifies dev
    ensures dev.Ran()
    ensures r == if dev.failures == old(dev.failures) then Parent(v, tree, same, f) else Err(BlockError)
  {
    hide TreeOk, HoldsSlots, Listing, FirstMatch, Directory.Valid;
    if f.dir.None? {
      return Err(NotFound);
    }
    var place := AfterReset(f.dir.value);
    PlaceInTree(v, tree, place, same, "..");
    var d := OpenDirectory(v, dev, place, tree[place]);
    var found := Lookup(d, same, "..");
    match found {
      case Err(e) =>
        return Err(e);
      case Ok(e) =>
        if !e.isDirectory {
          return Err(BlockError);
        }
        if e.cluster == 0 {
          return Ok(Root(v));
        }
        if f.parent.None? {
          return Err(Panicked);
        }
        return Ok(Opened(f.parent.value, None, Some(Clustered(e.cluster)), None));
    }
  }

  method OpenPath(v: Volume, dev: Device, same: Matcher, f: Opened, path: string,
      ghost tree: Tree) returns (r: IoResult<Opened>)
    requires TreeOk(v, tree) && (f.dir.Some? ==> AfterReset(f.dir.value) in tree)
    modifies dev
    ensures dev.Ran()
    ensures r == if dev.failures == old(dev.failures) then Open(v, tree, same, f, path) else Err(BlockError)
  {
    if path == "." {
      return Ok(f);
    }
    if path == ".." {
      r := OpenParent(v, dev, same, f, tree);
      return;
    }
    var absolute := IsAbsolute(path);
    var from := if absolute then Root(v) else f;
    if from.dir.None? {
      return Err(Unsupported);
    }
    r := WalkPath(v, dev, same, AfterReset(from.dir.value), from.entry, if absolute then path[1..] else path, tree);
  }
}
