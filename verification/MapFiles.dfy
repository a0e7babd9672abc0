/**
 Game directories as the map scan sees them, what one pass over each source yields, and the
 engine's own lookup, which searches the newest source first.
 */
module MapFiles {
  import opened Common
  import opened Text

  // ----- Names -----

  /** A server, catalogue or file name, normalized. */
  function KeyOf(name: string): Option<string> {
    var normalized := StripSuffix(StripPrefix(Lower(Slashed(Trim(name))), "maps/"), ".bsp");
    if normalized == "" then None else Some(normalized)
  }

  /** The last component of a slash-separated path; trailing slashes and dots are no component. */
  function FileName(path: string): string {
    if path == "" then ""
    else if path[|path| - 1] == '/' then FileName(path[..|path| - 1])
    else if EndsWith(path, "/.") then FileName(path[..|path| - 1])
    else AfterLast(path, '/')
  }

  function AfterLast(s: string, c: char): string {
    if s == "" || s[|s| - 1] == c then "" else AfterLast(s[..|s| - 1], c) + [s[|s| - 1]]
  }

  /** What follows the last dot of a file name, unless that dot is its first character. */
  function Extension(path: string): Option<string> {
    var name := FileName(path);
    var extension := AfterLast(name, '.');
    if |extension| + 1 >= |name| then None else Some(extension)
  }

  predicate IsBsp(path: string) {
    Extension(path).Some? && Lower(Extension(path).value) == "bsp"
  }

  lemma {:induction false} AfterLastIsShort(s: string, c: char, n: nat)
    requires n < |s| && s[n] == c
    ensures |AfterLast(s, c)| <= |s| - n - 1
  {
    if s[|s| - 1] != c {
      AfterLastIsShort(s[..|s| - 1], c, n);
    }
  }

  lemma {:induction false} AfterLastIsPart(s: string, c: char)
    ensures |AfterLast(s, c)| <= |s|
  {
    if s != "" && s[|s| - 1] != c {
      AfterLastIsPart(s[..|s| - 1], c);
    }
  }

  /** The file name of a path into `maps/` is no longer than "maps" or what follows the slash. */
  lemma {:induction false} FileNameIsShort(path: string)
    requires |path| >= 5 && path[4] == '/'
    ensures |FileName(path)| <= if |path| <= 9 then 4 else |path| - 5
  {
    if path[|path| - 1] == '/' || EndsWith(path, "/.") {
      if |path| == 5 {
        ShortFileName(path[..4]);
      } else {
        FileNameIsShort(path[..|path| - 1]);
      }
    } else {
      AfterLastIsShort(path, '/', 4);
    }
  }

  lemma {:induction false} ShortFileName(path: string)
    ensures |FileName(path)| <= |path|
  {
    if path != "" {
      if path[|path| - 1] == '/' || EndsWith(path, "/.") {
        ShortFileName(path[..|path| - 1]);
      } else {
        AfterLastIsPart(path, '/');
      }
    }
  }

  /** Cutting "maps/" and ".bsp" off an accepted path stays inside it. */
  lemma BspPathIsLong(path: string)
    requires "maps/" <= path && IsBsp(path)
    ensures |path| >= 10
  {
    FileNameIsShort(path);
  }

  /** The key and the display spelling of a BSP entry below `maps/`. */
  function NormalizedBspPath(path: string): Option<(string, string)> {
    var slashed := Slashed(Trim(path));
    var lower := Lower(slashed);
    if !("maps/" <= lower) || !IsBsp(lower) then None
    else
      BspPathIsLong(lower);
      var display := slashed[5..|slashed| - 4];
      if KeyOf(slashed).None? then None else Some((KeyOf(slashed).value, display))
  }

  function Folded(c: char): char {
    LowerChar(if c == '\\' then '/' else c)
  }

  ghost predicate SameSpelling(a: string, b: string) {
    |a| == |b| && forall i :: 0 <= i < |a| ==> Folded(a[i]) == Folded(b[i])
  }

  lemma FoldingKeepsSpace(c: char, d: char)
    requires Folded(c) == Folded(d)
    ensures WhiteSpace(c) == WhiteSpace(d)
  {
  }

  lemma {:induction false} SameTrimStart(a: string, b: string)
    requires SameSpelling(a, b)
    ensures SameSpelling(TrimStart(a), TrimStart(b))
  {
    hide Folded, WhiteSpace;
    if a != "" {
      FoldingKeepsSpace(a[0], b[0]);
      if WhiteSpace(a[0]) {
        SameTrimStart(a[1..], b[1..]);
      }
    }
  }

  lemma {:induction false} SameTrimEnd(a: string, b: string)
    requires SameSpelling(a, b)
    ensures SameSpelling(TrimEnd(a), TrimEnd(b))
    decreases |a|
  {
    hide Folded, WhiteSpace;
    if a != "" {
      var last := |a| - 1;
      FoldingKeepsSpace(a[last], b[last]);
      if WhiteSpace(a[last]) {
        SameTrimEnd(a[..last], b[..last]);
      }
    }
  }

  lemma SameFolding(a: string, b: string)
    requires SameSpelling(a, b)
    ensures Lower(Slashed(a)) == Lower(Slashed(b))
  {
    forall i | 0 <= i < |a| ensures Lower(Slashed(a))[i] == Lower(Slashed(b))[i] {
      assert Lower(Slashed(a))[i] == Folded(a[i]) && Lower(Slashed(b))[i] == Folded(b[i]);
    }
  }

  /** Neither letter case nor the direction of slashes tells two map names apart. */
  lemma SpellingIsIgnored(a: string, b: string)
    requires SameSpelling(a, b)
    ensures KeyOf(a) == KeyOf(b)
  {
    SameTrimStart(a, b);
    SameTrimEnd(TrimStart(a), TrimStart(b));
    SameFolding(Trim(a), Trim(b));
  }

  lemma FoldingOfConcat(a: string, b: string)
    ensures Lower(Slashed(a + b)) == Lower(Slashed(a)) + Lower(Slashed(b))
  {
    hide Lower, Slashed;
    assert Slashed(a + b) == Slashed(a) + Slashed(b);
    assert Lower(Slashed(a) + Slashed(b)) == Lower(Slashed(a)) + Lower(Slashed(b));
  }

  lemma PathEnds()
    ensures Lower(Slashed("maps/")) == "maps/"
    ensures Lower(Slashed(".bsp")) == ".bsp"
  {
    hide Lower, Slashed;
  }

  lemma PathSpelling(name: string)
    ensures Lower(Slashed("maps/" + name + ".bsp")) == "maps/" + Lower(Slashed(name)) + ".bsp"
  {
    hide Lower, Slashed;
    FoldingOfConcat("maps/" + name, ".bsp");
    FoldingOfConcat("maps/", name);
    PathEnds();
  }

  lemma Stripped(folded: string)
    ensures StripPrefix("maps/" + folded + ".bsp", "maps/") == folded + ".bsp"
    ensures StripSuffix(folded + ".bsp", ".bsp") == folded
  {
    assert ("maps/" + folded + ".bsp")[5..] == folded + ".bsp";
    assert (folded + ".bsp")[|folded|..] == ".bsp";
    assert (folded + ".bsp")[..|folded|] == folded;
  }

  /** A file `maps/<name>.bsp` is indexed under the key a server's bare `<name>` looks up. */
  lemma FileIsFoundByName(name: string)
    requires Trim(name) == name != ""
    requires !("maps/" <= Lower(Slashed(name))) && !EndsWith(Lower(Slashed(name)), ".bsp")
    ensures KeyOf("maps/" + name + ".bsp") == KeyOf(name) == Some(Lower(Slashed(name)))
  {
    hide Lower, Slashed;
    var path := "maps/" + name + ".bsp";
    assert path[0] == 'm' && path[|path| - 1] == 'p';
    assert Trim(path) == path;
    PathSpelling(name);
    Stripped(Lower(Slashed(name)));
  }

  // ----- Sorting -----

  /** Stable insertion sort: `x` goes before the first element it is not greater than. */
  function Insert<T>(x: T, sorted: seq<T>, less: (T, T) -> bool): seq<T> {
    if sorted == [] || !less(sorted[0], x) then [x] + sorted
    else [sorted[0]] + Insert(x, sorted[1..], less)
  }

  function Sorted<T>(xs: seq<T>, less: (T, T) -> bool): seq<T> {
    if xs == [] then [] else Insert(xs[0], Sorted(xs[1..], less), less)
  }

  lemma {:induction false} InsertKeeps<T>(x: T, sorted: seq<T>, less: (T, T) -> bool)
    ensures multiset(Insert(x, sorted, less)) == multiset(sorted) + multiset{x}
  {
    if sorted != [] {
      InsertKeeps(x, sorted[1..], less);
      assert sorted == [sorted[0]] + sorted[1..];
    }
  }

  lemma {:induction false} SortedKeeps<T>(xs: seq<T>, less: (T, T) -> bool)
    ensures multiset(Sorted(xs, less)) == multiset(xs)
  {
    if xs != [] {
      SortedKeeps(xs[1..], less);
      InsertKeeps(xs[0], Sorted(xs[1..], less), less);
      assert xs == [xs[0]] + xs[1..];
    }
  }

  lemma {:induction false} InsertGreatest<T>(g: T, sorted: seq<T>, less: (T, T) -> bool)
    requires forall y :: y in sorted ==> less(y, g)
    ensures Insert(g, sorted, less) == sorted + [g]
  {
    if sorted != [] {
      InsertGreatest(g, sorted[1..], less);
    }
  }

  lemma {:induction false} InsertBefore<T>(x: T, sorted: seq<T>, g: T, less: (T, T) -> bool)
    requires less(x, g) && !less(g, x)
    ensures Insert(x, sorted + [g], less) == Insert(x, sorted, less) + [g]
  {
    if sorted == [] {
      assert sorted + [g] == [g];
    } else {
      InsertBefore(x, sorted[1..], g, less);
      assert (sorted + [g])[1..] == sorted[1..] + [g];
    }
  }

  function Without<T>(xs: seq<T>, i: nat): seq<T>
    requires i < |xs|
  {
    xs[..i] + xs[i + 1..]
  }

  ghost predicate IsGreatest<T>(xs: seq<T>, i: nat, less: (T, T) -> bool)
    requires i < |xs|
  {
    forall j {:trigger xs[j]} :: 0 <= j < |xs| && j != i ==> Above(xs[j], xs[i], less)
  }

  predicate Above<T>(x: T, g: T, less: (T, T) -> bool) {
    less(x, g) && !less(g, x)
  }

  /** The greatest element sorts last, after the sorted rest. */
  lemma {:induction false} GreatestSortsLast<T>(xs: seq<T>, i: nat, less: (T, T) -> bool)
    requires i < |xs| && IsGreatest(xs, i, less)
    ensures Sorted(xs, less) == Sorted(Without(xs, i), less) + [xs[i]]
    decreases |xs|
  {
    var rest := xs[1..];
    assert forall j :: 0 <= j < |rest| ==> rest[j] == xs[j + 1];
    if i == 0 {
      assert Without(xs, 0) == rest;
      SortedKeeps(rest, less);
      forall y | y in Sorted(rest, less) ensures less(y, xs[0]) {
        assert y in multiset(rest);
        var j :| 0 <= j < |rest| && rest[j] == y;
        assert Above(xs[j + 1], xs[0], less);
      }
      InsertGreatest(xs[0], Sorted(rest, less), less);
    } else {
      GreatestSortsLast(rest, i - 1, less);
      WithoutTail(xs, i);
      assert Above(xs[0], xs[i], less);
      InsertBefore(xs[0], Sorted(Without(rest, i - 1), less), xs[i], less);
    }
  }

  lemma WithoutTail<T>(xs: seq<T>, i: nat)
    requires 0 < i < |xs|
    ensures Without(xs, i) != [] && Without(xs, i)[0] == xs[0]
    ensures Without(xs, i)[1..] == Without(xs[1..], i - 1)
  {
  }

  // ----- Sources -----

  datatype Header = Header(ident: string, version: int, checksum: int)

  datatype SkippedReason = UnreadableHeader | UnsupportedVersion(version: int)

  datatype Provider =
    | Pk3(archive: string, entry: string, header: Header)
    | Pk3Dir(directory: string, entry: string, header: Header)
    | Loose(path: string, entry: string, header: Header)

  datatype SkippedEntry = SkippedEntry(source: string, entry: string, reason: SkippedReason)

  /** One usable BSP of one source. */
  datatype Hit = Hit(key: string, display: string, provider: Provider)

  /** What a pass over a source adds to the index, in the order it is added. */
  datatype Found = Found(hits: seq<Hit>, skips: seq<SkippedEntry>) {
    function Then(later: Found): Found {
      Found(hits + later.hits, skips + later.skips)
    }
  }

  const NOTHING := Found([], [])

  /** An archive entry, or a place where reading the archive fails. */
  datatype ArchiveEntry =
    | BadEntry
    | ArchiveEntry(name: string, header: Result<Header, SkippedReason>)

  /** An entry of a directory tree below `maps`, by its path from the tree's root. */
  datatype TreeFile = TreeFile(path: string, isFile: bool, header: Result<Header, SkippedReason>)

  /** `None` stands for an archive that cannot be opened, or a tree that cannot be walked. */
  datatype Contents =
    | Archive(entries: Option<seq<ArchiveEntry>>)
    | Folder(files: Option<seq<TreeFile>>)

  datatype DirEntry = DirEntry(name: string, contents: Contents)

  datatype Directory =
    | NotDirectory
    | Unlisted
    | Directory(path: string, entries: seq<DirEntry>, loose: Option<seq<TreeFile>>)

  datatype TreeKind = PackageTree | LooseTree

  function EntryFound(archive: string, e: ArchiveEntry): Found
    requires e.ArchiveEntry?
  {
    var named := NormalizedBspPath(e.name);
    if named.None? then NOTHING
    else if e.header.Failure? then Found([], [SkippedEntry(archive, e.name, e.header.error)])
    else
      Found([Hit(named.value.0, named.value.1, Pk3(archive, e.name, e.header.value))], [])
  }

  /** Entries up to the first that cannot be read: what was added before a failure stays. */
  function ReadArchive(archive: string, entries: seq<ArchiveEntry>): Found {
    if entries == [] || entries[0].BadEntry? then NOTHING
    else EntryFound(archive, entries[0]).Then(ReadArchive(archive, entries[1..]))
  }

  predicate Intact(entries: seq<ArchiveEntry>) {
    forall i :: 0 <= i < |entries| ==> entries[i].ArchiveEntry?
  }

  /** What an archive held before the first entry that cannot be read stays usable. */
  lemma {:induction false} FailureKeepsPrefix(
    archive: string, read: seq<ArchiveEntry>, rest: seq<ArchiveEntry>)
    requires Intact(read)
    ensures ReadArchive(archive, read + [BadEntry] + rest) == ReadArchive(archive, read)
    ensures !Intact(read + [BadEntry] + rest)
  {
    hide EntryFound;
    var all := read + [BadEntry] + rest;
    assert all[|read|] == BadEntry;
    if read != [] {
      FailureKeepsPrefix(archive, read[1..], rest);
      assert all[1..] == read[1..] + [BadEntry] + rest;
    }
  }

  predicate Candidate(f: TreeFile) {
    f.isFile && IsBsp(f.path)
  }

  function TreeProvider(root: string, kind: TreeKind, f: TreeFile, header: Header): Provider {
    if kind.PackageTree? then Pk3Dir(root, f.path, header)
    else Loose(root + "/" + f.path, f.path, header)
  }

  function FileFound(root: string, kind: TreeKind, f: TreeFile): Found {
    var named := NormalizedBspPath(f.path);
    if !Candidate(f) || named.None? then NOTHING
    else if f.header.Failure? then
      Found([], [SkippedEntry(root + "/" + f.path, f.path, f.header.error)])
    else
      Found([Hit(named.value.0, named.value.1, TreeProvider(root, kind, f, f.header.value))], [])
  }

  function ReadTree(root: string, kind: TreeKind, files: seq<TreeFile>): Found {
    if files == [] then NOTHING
    else FileFound(root, kind, files[0]).Then(ReadTree(root, kind, files[1..]))
  }

  function Candidates(files: seq<TreeFile>): nat {
    if files == [] then 0
    else (if Candidate(files[0]) then 1 else 0) + Candidates(files[1..])
  }

  function FileOrder(): (TreeFile, TreeFile) -> bool {
    (f: TreeFile, g: TreeFile) => LexLess(Lower(f.path), Lower(g.path))
  }

  /** Package names ignoring case, then exactly. */
  predicate NameLess(p: string, q: string) {
    LexLess(Lower(p), Lower(q)) || (Lower(p) == Lower(q) && LexLess(p, q))
  }

  function PackageOrder(): (DirEntry, DirEntry) -> bool {
    (p: DirEntry, q: DirEntry) => NameLess(p.name, q.name)
  }

  predicate IsPackage(e: DirEntry) {
    EndsWith(Lower(e.name), ".pk3") || (e.contents.Folder? && EndsWith(Lower(e.name), ".pk3dir"))
  }

  function Packages(entries: seq<DirEntry>): seq<DirEntry> {
    if entries == [] then []
    else (if IsPackage(entries[0]) then [entries[0]] else []) + Packages(entries[1..])
  }

  predicate Readable(e: DirEntry) {
    match e.contents
    case Archive(entries) => entries.Some? && Intact(entries.value)
    case Folder(files) => files.Some?
  }

  function PackageFound(directory: string, e: DirEntry): Found {
    var path := directory + "/" + e.name;
    match e.contents
    case Archive(entries) => if entries.None? then NOTHING else ReadArchive(path, entries.value)
    case Folder(files) =>
      if files.None? then NOTHING
      else ReadTree(path, PackageTree, Sorted(files.value, FileOrder()))
  }

  function PackagesFound(directory: string, packages: seq<DirEntry>): Found {
    if packages == [] then NOTHING
    else PackageFound(directory, packages[0]).Then(PackagesFound(directory, packages[1..]))
  }

  function LooseFound(d: Directory): Found
    requires d.Directory?
  {
    if d.loose.None? then NOTHING
    else ReadTree(d.path, LooseTree, Sorted(d.loose.value, FileOrder()))
  }

  function DirectoryFound(d: Directory): Found
    requires d.Directory?
  {
    PackagesFound(d.path, Sorted(Packages(d.entries), PackageOrder())).Then(LooseFound(d))
  }

  predicate Scannable(d: Directory) {
    d.Directory? && d.loose.Some?
  }

  predicate AllScannable(dirs: seq<Directory>) {
    forall i :: 0 <= i < |dirs| ==> Scannable(dirs[i])
  }

  /** A whole chain, lowest precedence first. */
  function ChainFound(dirs: seq<Directory>): Found
    requires AllScannable(dirs)
  {
    if dirs == [] then NOTHING
    else DirectoryFound(dirs[0]).Then(ChainFound(dirs[1..]))
  }

  // ----- The engine's lookup -----

  /** The hits for a key, the one added last first. */
  function Newest(hits: seq<Hit>, key: string): seq<Hit> {
    if hits == [] then []
    else
      var last := hits[|hits| - 1];
      (if last.key == key then [last] else []) + Newest(hits[..|hits| - 1], key)
  }

  /** The package whose name sorts last among `packages[..n]`. */
  function Greatest(packages: seq<DirEntry>, n: nat): (i: nat)
    requires 0 < n <= |packages|
    ensures i < n
  {
    if n == 1 then 0
    else
      var best := Greatest(packages, n - 1);
      if NameLess(packages[best].name, packages[n - 1].name) then n - 1 else best
  }

  /** Packages are searched from the greatest name down. */
  function EnginePackages(directory: string, packages: seq<DirEntry>, key: string): seq<Hit>
    decreases |packages|
  {
    if packages == [] then []
    else
      var i := Greatest(packages, |packages|);
      Newest(PackageFound(directory, packages[i]).hits, key)
      + EnginePackages(directory, Without(packages, i), key)
  }

  /** Loose files override every package of their directory. */
  function EngineDirectory(d: Directory, key: string): seq<Hit>
    requires d.Directory?
  {
    Newest(LooseFound(d).hits, key) + EnginePackages(d.path, Packages(d.entries), key)
  }

  /** Directories are searched from the last of the chain to the first. */
  function EngineLookup(dirs: seq<Directory>, key: string): seq<Hit>
    requires AllScannable(dirs)
  {
    if dirs == [] then []
    else
      var last := |dirs| - 1;
      EngineDirectory(dirs[last], key) + EngineLookup(dirs[..last], key)
  }

  function EntryName(): DirEntry -> string {
    (e: DirEntry) => e.name
  }

  /** A directory lists no name twice. */
  ghost predicate DistinctNames(entries: seq<DirEntry>) {
    DistinctBy(entries, EntryName())
  }

  ghost predicate RealChain(dirs: seq<Directory>) {
    AllScannable(dirs) && forall i :: 0 <= i < |dirs| ==> DistinctNames(dirs[i].entries)
  }

  // ----- Adding in order, then reversing, is searching newest first -----

  lemma {:induction false} NewestOfConcat(front: seq<Hit>, back: seq<Hit>, key: string)
    ensures Newest(front + back, key) == Newest(back, key) + Newest(front, key)
    decreases |back|
  {
    if back == [] {
      assert front + back == front;
    } else {
      var last := |back| - 1;
      NewestOfConcat(front, back[..last], key);
      assert (front + back)[..|front + back| - 1] == front + back[..last];
      var x := if back[last].key == key then [back[last]] else [];
      assert Newest(front + back, key) == x + Newest(front + back[..last], key);
      assert Newest(back, key) == x + Newest(back[..last], key);
    }
  }

  lemma NameOrder(p: string, q: string)
    ensures p == q || NameLess(p, q) || NameLess(q, p)
    ensures !(NameLess(p, q) && NameLess(q, p)) && !NameLess(p, p)
  {
    LexTotal(Lower(p), Lower(q));
    LexTotal(p, q);
    LexTotal(p, p);
    LexTotal(Lower(p), Lower(p));
  }

  lemma NameTransitive(p: string, q: string, r: string)
    requires NameLess(p, q) && NameLess(q, r)
    ensures NameLess(p, r)
  {
    if LexLess(Lower(p), Lower(q)) && LexLess(Lower(q), Lower(r)) {
      LexTransitive(Lower(p), Lower(q), Lower(r));
    } else if Lower(p) == Lower(q) == Lower(r) {
      LexTransitive(p, q, r);
    }
  }

  lemma {:induction false} GreatestIsGreatest(packages: seq<DirEntry>, n: nat)
    requires 0 < n <= |packages| && DistinctNames(packages)
    ensures forall j :: 0 <= j < n && j != Greatest(packages, n) ==>
              NameLess(packages[j].name, packages[Greatest(packages, n)].name)
  {
    if n > 1 {
      GreatestIsGreatest(packages, n - 1);
      var best, last := Greatest(packages, n - 1), packages[n - 1].name;
      NameOrder(packages[best].name, last);
      forall j | 0 <= j < n - 1 && j != best && NameLess(packages[best].name, last)
        ensures NameLess(packages[j].name, last)
      {
        NameTransitive(packages[j].name, packages[best].name, last);
      }
    }
  }

  lemma {:induction false} PackagesOfConcat(directory: string, packages: seq<DirEntry>, last: DirEntry)
    ensures PackagesFound(directory, packages + [last]).hits
            == PackagesFound(directory, packages).hits + PackageFound(directory, last).hits
  {
    hide PackageFound;
    if packages == [] {
      assert packages + [last] == [last];
    } else {
      PackagesOfConcat(directory, packages[1..], last);
      assert (packages + [last])[1..] == packages[1..] + [last];
    }
  }

  lemma {:induction false} PackagesAgree(directory: string, packages: seq<DirEntry>, key: string)
    requires DistinctNames(packages)
    ensures Newest(PackagesFound(directory, Sorted(packages, PackageOrder())).hits, key)
            == EnginePackages(directory, packages, key)
    decreases |packages|
  {
    if packages != [] {
      var i := Greatest(packages, |packages|);
      var rest := Without(packages, i);
      GreatestIsGreatest(packages, |packages|);
      forall j | 0 <= j < |packages| && j != i
        ensures Above(packages[j], packages[i], PackageOrder())
      {
        NameOrder(packages[j].name, packages[i].name);
      }
      GreatestSortsLast(packages, i, PackageOrder());
      PackagesOfConcat(directory, Sorted(rest, PackageOrder()), packages[i]);
      NewestOfConcat(PackagesFound(directory, Sorted(rest, PackageOrder())).hits,
                     PackageFound(directory, packages[i]).hits, key);
      PackagesAgree(directory, rest, key);
    }
  }

  lemma {:induction false} PackagesAreDistinct(entries: seq<DirEntry>)
    requires DistinctNames(entries)
    ensures DistinctNames(Packages(entries))
    ensures forall p :: p in Packages(entries) ==> p in entries
  {
    if entries != [] {
      PackagesAreDistinct(entries[1..]);
      forall p | p in entries[1..] ensures p.name != entries[0].name {
        var j :| 0 <= j < |entries[1..]| && entries[1..][j] == p;
        assert entries[j + 1] == p;
      }
      assert entries == [entries[0]] + entries[1..];
    }
  }

  lemma DirectoryAgrees(d: Directory, key: string)
    requires d.Directory? && DistinctNames(d.entries)
    ensures Newest(DirectoryFound(d).hits, key) == EngineDirectory(d, key)
  {
    PackagesAreDistinct(d.entries);
    PackagesAgree(d.path, Packages(d.entries), key);
    NewestOfConcat(PackagesFound(d.path, Sorted(Packages(d.entries), PackageOrder())).hits,
                   LooseFound(d).hits, key);
  }

  lemma {:induction false} ChainOfConcat(dirs: seq<Directory>, last: Directory)
    requires AllScannable(dirs) && Scannable(last)
    ensures ChainFound(dirs + [last]).hits == ChainFound(dirs).hits + DirectoryFound(last).hits
  {
    hide DirectoryFound;
    if dirs == [] {
      assert dirs + [last] == [last];
    } else {
      ChainOfConcat(dirs[1..], last);
      assert (dirs + [last])[1..] == dirs[1..] + [last];
    }
  }

  /** Reversing the order of addition gives the engine's lookup order, for every key. */
  lemma {:induction false} AdditionOrderReversed(dirs: seq<Directory>, key: string)
    requires RealChain(dirs)
    ensures Newest(ChainFound(dirs).hits, key) == EngineLookup(dirs, key)
    decreases |dirs|
  {
    hide DirectoryFound, EngineDirectory;
    if dirs != [] {
      var last := |dirs| - 1;
      AdditionOrderReversed(dirs[..last], key);
      assert dirs[..last] + [dirs[last]] == dirs;
      ChainOfConcat(dirs[..last], dirs[last]);
      NewestOfConcat(ChainFound(dirs[..last]).hits, DirectoryFound(dirs[last]).hits, key);
      DirectoryAgrees(dirs[last], key);
    }
  }
}
