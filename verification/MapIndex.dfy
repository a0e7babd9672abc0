/**
 The map index: built by appending every usable BSP of every source in the order the sources are
 scanned, then reversing each provider list once.
 */
module MapIndexes {
  import opened Common
  import opened MapFiles

  /** All providers of one map; in a finished index the one the engine loads comes first. */
  datatype Map = Map(name: string, displayName: string, providers: seq<Provider>)

  type Maps = map<string, Map>

  function Get(maps: Maps, name: string): Option<Map> {
    var key := KeyOf(name);
    if key.Some? && key.value in maps then Some(maps[key.value]) else None
  }

  datatype ScanStats = ScanStats(
    archives: nat,
    packageDirectories: nat,
    looseBspFiles: nat,
    maps: nat,
    multiProviderMaps: nat,
    skippedEntries: nat,
    skippedPackages: nat)

  function Reversed<T>(xs: seq<T>): seq<T> {
    if xs == [] then [] else Reversed(xs[1..]) + [xs[0]]
  }

  lemma {:induction false} ReversedTwice<T>(xs: seq<T>)
    ensures Reversed(Reversed(xs)) == xs
  {
    if xs != [] {
      ReversedTwice(xs[1..]);
      ReversedConcat(Reversed(xs[1..]), xs[0]);
    }
  }

  lemma {:induction false} ReversedConcat<T>(xs: seq<T>, x: T)
    ensures Reversed(xs + [x]) == [x] + Reversed(xs)
  {
    if xs == [] {
      assert xs + [x] == [x];
    } else {
      ReversedConcat(xs[1..], x);
      assert (xs + [x])[1..] == xs[1..] + [x];
    }
  }

  function ProvidersOf(hits: seq<Hit>): seq<Provider> {
    if hits == [] then [] else [hits[0].provider] + ProvidersOf(hits[1..])
  }

  /** The entry a finished index holds for hits in lookup order. */
  function Finished(key: string, lookup: seq<Hit>): Map
    requires lookup != []
  {
    Map(key, lookup[0].display, ProvidersOf(lookup))
  }

  ghost predicate BuildingAt(maps: Maps, hits: seq<Hit>, key: string) {
    var newest := Newest(hits, key);
    && (key in maps <==> newest != [])
    && (key in maps ==>
          maps[key] == Finished(key, newest).(providers := Reversed(ProvidersOf(newest))))
  }

  ghost predicate Building(maps: Maps, hits: seq<Hit>) {
    forall key :: BuildingAt(maps, hits, key)
  }

  ghost predicate IndexedAt(maps: Maps, hits: seq<Hit>, key: string) {
    var newest := Newest(hits, key);
    && (key in maps <==> newest != [])
    && (key in maps ==> maps[key] == Finished(key, newest))
  }

  function Readables(packages: seq<DirEntry>, archives: bool): nat {
    if packages == [] then 0
    else (if Readable(packages[0]) && packages[0].contents.Archive? == archives then 1 else 0)
         + Readables(packages[1..], archives)
  }

  function Unreadables(directory: string, packages: seq<DirEntry>): seq<string> {
    if packages == [] then []
    else (if Readable(packages[0]) then [] else [directory + "/" + packages[0].name])
         + Unreadables(directory, packages[1..])
  }

  function SortedPackages(d: Directory): seq<DirEntry>
    requires d.Directory?
  {
    Sorted(Packages(d.entries), PackageOrder())
  }

  function ChainReadables(dirs: seq<Directory>, archives: bool): nat
    requires AllScannable(dirs)
  {
    if dirs == [] then 0
    else Readables(SortedPackages(dirs[0]), archives) + ChainReadables(dirs[1..], archives)
  }

  function ChainUnreadables(dirs: seq<Directory>): seq<string>
    requires AllScannable(dirs)
  {
    if dirs == [] then []
    else Unreadables(dirs[0].path, SortedPackages(dirs[0])) + ChainUnreadables(dirs[1..])
  }

  function ChainCandidates(dirs: seq<Directory>): nat
    requires AllScannable(dirs)
  {
    if dirs == [] then 0
    else Candidates(Sorted(dirs[0].loose.value, FileOrder())) + ChainCandidates(dirs[1..])
  }

  function ChainPackages(dirs: seq<Directory>): nat
    requires AllScannable(dirs)
  {
    if dirs == [] then 0 else |Packages(dirs[0].entries)| + ChainPackages(dirs[1..])
  }

  lemma {:induction false} PackageCounted(directory: string, packages: seq<DirEntry>)
    ensures Readables(packages, true) + Readables(packages, false)
            + |Unreadables(directory, packages)| == |packages|
  {
    hide Readable;
    if packages != [] {
      PackageCounted(directory, packages[1..]);
    }
  }

  /** Every package of a scanned chain is an archive, a package folder or one skipped package. */
  lemma {:induction false} EveryPackageCounted(dirs: seq<Directory>)
    requires AllScannable(dirs)
    ensures ChainReadables(dirs, true) + ChainReadables(dirs, false) + |ChainUnreadables(dirs)|
            == ChainPackages(dirs)
  {
    hide Readables, Unreadables;
    if dirs != [] {
      EveryPackageCounted(dirs[1..]);
      PackageCounted(dirs[0].path, SortedPackages(dirs[0]));
      SortedKeeps(Packages(dirs[0].entries), PackageOrder());
      assert |multiset(SortedPackages(dirs[0]))| == |SortedPackages(dirs[0])|;
    }
  }

  /** The per-source counts once the rest of a chain has been scanned. */
  function Tallied(stats: ScanStats, rest: seq<Directory>): ScanStats
    requires AllScannable(rest)
  {
    stats.(archives := stats.archives + ChainReadables(rest, true),
           packageDirectories := stats.packageDirectories + ChainReadables(rest, false),
           looseBspFiles := stats.looseBspFiles + ChainCandidates(rest))
  }

  /** What an index holds once the rest of a chain has been scanned. */
  ghost function ChainScanned(
    found: Found, skippedPackages: seq<string>, stats: ScanStats, rest: seq<Directory>)
    : (Found, seq<string>, ScanStats)
    requires AllScannable(rest)
  {
    (found.Then(ChainFound(rest)), skippedPackages + ChainUnreadables(rest), Tallied(stats, rest))
  }

  lemma ScanNext(
    found: Found, skippedPackages: seq<string>, stats: ScanStats, rest: seq<Directory>)
    requires rest != [] && AllScannable(rest)
    ensures var packages := SortedPackages(rest[0]);
            ChainScanned(found, skippedPackages, stats, rest)
            == ChainScanned(
                 found.Then(DirectoryFound(rest[0])),
                 skippedPackages + Unreadables(rest[0].path, packages),
                 stats.(archives := stats.archives + Readables(packages, true),
                        packageDirectories := stats.packageDirectories + Readables(packages, false),
                        looseBspFiles := stats.looseBspFiles
                                         + Candidates(Sorted(rest[0].loose.value, FileOrder()))),
                 rest[1..])
  {
    hide DirectoryFound, SortedPackages, Unreadables, Readables, Candidates;
    ThenAssociates(found, DirectoryFound(rest[0]), ChainFound(rest[1..]));
    var unread := Unreadables(rest[0].path, SortedPackages(rest[0]));
    assert (skippedPackages + unread) + ChainUnreadables(rest[1..])
        == skippedPackages + (unread + ChainUnreadables(rest[1..]));
  }

  lemma ScanNothing(found: Found, skippedPackages: seq<string>, stats: ScanStats)
    ensures ChainScanned(found, skippedPackages, stats, []) == (found, skippedPackages, stats)
  {
    ThenNothing(found);
    assert skippedPackages + [] == skippedPackages;
  }

  lemma ScanAll(
    found: Found, skippedPackages: seq<string>, stats: ScanStats, dirs: seq<Directory>)
    requires AllScannable(dirs)
    ensures ChainScanned(found, skippedPackages, stats, dirs)
            == (found.Then(ChainFound(dirs)), skippedPackages + ChainUnreadables(dirs),
                Tallied(stats, dirs))
  {
  }

  function MultiProvider(maps: Maps): set<string> {
    set key | key in maps && |maps[key].providers| > 1
  }

  lemma ThenNothing(found: Found)
    ensures found.Then(NOTHING) == found && NOTHING.Then(found) == found
  {
    assert found.hits + [] == found.hits && found.skips + [] == found.skips;
    assert [] + found.hits == found.hits && [] + found.skips == found.skips;
  }

  lemma ThenAssociates(a: Found, b: Found, c: Found)
    ensures a.Then(b).Then(c) == a.Then(b.Then(c))
  {
    assert (a.hits + b.hits) + c.hits == a.hits + (b.hits + c.hits);
    assert (a.skips + b.skips) + c.skips == a.skips + (b.skips + c.skips);
  }

  lemma NewestOfAdded(hits: seq<Hit>, hit: Hit, key: string)
    ensures Newest(hits + [hit], key)
            == if hit.key == key then [hit] + Newest(hits, key) else Newest(hits, key)
  {
    assert (hits + [hit])[..|hits|] == hits;
  }

  /** Under every key, exactly what the engine's own lookup finds, in the order it finds it. */
  ghost predicate Scanned(maps: Maps, dirs: seq<Directory>)
    requires AllScannable(dirs)
  {
    forall key :: && (key in maps <==> EngineLookup(dirs, key) != [])
                  && (key in maps ==> maps[key] == Finished(key, EngineLookup(dirs, key)))
  }

  lemma LookupOrder(maps: Maps, hits: seq<Hit>, dirs: seq<Directory>)
    requires RealChain(dirs) && hits == ChainFound(dirs).hits
    requires forall key :: IndexedAt(maps, hits, key)
    ensures Scanned(maps, dirs)
  {
    forall key
      ensures key in maps <==> EngineLookup(dirs, key) != []
      ensures key in maps ==> maps[key] == Finished(key, EngineLookup(dirs, key))
    {
      assert IndexedAt(maps, hits, key);
      AdditionOrderReversed(dirs, key);
    }
  }

  class MapIndex {
    var maps: Maps
    var skipped: seq<SkippedEntry>
    var skippedPackages: seq<string>
    var stats: ScanStats
    /** Everything added so far, in order. */
    ghost var found: Found

    ghost predicate Valid()
      reads this
    {
      Building(maps, found.hits) && skipped == found.skips
    }

    constructor ()
      ensures Valid() && found == NOTHING
      ensures skippedPackages == [] && stats == ScanStats(0, 0, 0, 0, 0, 0, 0)
    {
      maps, skipped, skippedPackages, stats := map[], [], [], ScanStats(0, 0, 0, 0, 0, 0, 0);
      found := NOTHING;
      new;
      forall key ensures BuildingAt(map[], [], key) {}
    }

    /**
     Build the index of a whole chain, whose last directory takes precedence. The result lists, for
     every key, exactly what the engine's own newest-first lookup finds, in that order.
     */
    static method ScanChain(dirs: seq<Directory>) returns (result: Option<MapIndex>)
      requires forall i :: 0 <= i < |dirs| && dirs[i].Directory? ==> DistinctNames(dirs[i].entries)
      ensures result.Some? <==> AllScannable(dirs)
      ensures result.Some? ==>
                var index := result.value;
                && fresh(index)
                && Scanned(index.maps, dirs)
                && index.skipped == ChainFound(dirs).skips
                && index.skippedPackages == ChainUnreadables(dirs)
                && index.stats == ScanStats(
                     ChainReadables(dirs, true), ChainReadables(dirs, false),
                     ChainCandidates(dirs), |index.maps|,
                     |set key | key in index.maps && |index.maps[key].providers| > 1|,
                     |index.skipped|, |index.skippedPackages|)
    {
      hide ChainFound, EngineLookup, ChainReadables, ChainUnreadables, ChainCandidates;
      hide Scanned, Building;
      var index := new MapIndex();
      var ok := index.ScanDirectories(dirs);
      if !ok {
        return None;
      }
      ThenNothing(ChainFound(dirs));
      index.UpdateStats();
      LookupOrder(index.maps, index.found.hits, dirs);
      result := Some(index);
    }

    method ScanDirectories(dirs: seq<Directory>) returns (ok: bool)
      requires Valid()
      modifies this
      ensures ok <==> AllScannable(dirs)
      ensures ok ==>
                && Valid() && skipped == found.skips
                && found == old(found).Then(ChainFound(dirs))
                && skippedPackages == old(skippedPackages) + ChainUnreadables(dirs)
                && stats == Tallied(old(stats), dirs)
    {
      hide DirectoryFound, SortedPackages, Unreadables, Readables, Candidates, Building;
      hide ChainScanned;
      assert dirs[0..] == dirs;
      for i := 0 to |dirs|
        invariant Valid() && AllScannable(dirs[..i])
        invariant AllScannable(dirs) ==>
                    ChainScanned(found, skippedPackages, stats, dirs[i..])
                    == old(ChainScanned(found, skippedPackages, stats, dirs))
      {
        if AllScannable(dirs) {
          ScanNext(found, skippedPackages, stats, dirs[i..]);
        }
        ok := ScanDirectory(dirs[i]);
        if !ok {
          return;
        }
        assert dirs[i..][1..] == dirs[i + 1..];
        assert dirs[..i + 1] == dirs[..i] + [dirs[i]];
      }
      assert dirs[..|dirs|] == dirs && dirs[|dirs|..] == [];
      ScanNothing(found, skippedPackages, stats);
      ScanAll(old(found), old(skippedPackages), old(stats), dirs);
      ok := true;
    }

    method ScanDirectory(d: Directory) returns (ok: bool)
      requires Valid()
      modifies this
      ensures ok <==> Scannable(d)
      ensures ok ==>
                && Valid() && found == old(found).Then(DirectoryFound(d))
                && skippedPackages == old(skippedPackages) + Unreadables(d.path, SortedPackages(d))
                && stats == old(stats).(
                     archives := old(stats.archives) + Readables(SortedPackages(d), true),
                     packageDirectories := old(stats.packageDirectories)
                                           + Readables(SortedPackages(d), false),
                     looseBspFiles := old(stats.looseBspFiles)
                                      + Candidates(Sorted(d.loose.value, FileOrder())))
    {
      if !d.Directory? {
        return false;
      }
      ScanPackages(d.path, SortedPackages(d));
      if d.loose.None? {
        return false;
      }
      ghost var packages := PackagesFound(d.path, SortedPackages(d));
      var candidates := ScanTree(d.path, LooseTree, Sorted(d.loose.value, FileOrder()));
      stats := stats.(looseBspFiles := stats.looseBspFiles + candidates);
      ThenAssociates(old(found), packages, LooseFound(d));
      ok := true;
    }

    method ScanPackages(directory: string, packages: seq<DirEntry>)
      requires Valid()
      modifies this
      ensures Valid() && found == old(found).Then(PackagesFound(directory, packages))
      ensures skippedPackages == old(skippedPackages) + Unreadables(directory, packages)
      ensures stats == old(stats).(
                archives := old(stats.archives) + Readables(packages, true),
                packageDirectories := old(stats.packageDirectories) + Readables(packages, false))
    {
      hide PackageFound, Readable, Building;
      assert packages[0..] == packages;
      for i := 0 to |packages|
        invariant Valid()
        invariant found.Then(PackagesFound(directory, packages[i..]))
                  == old(found).Then(PackagesFound(directory, packages))
        invariant skippedPackages + Unreadables(directory, packages[i..])
                  == old(skippedPackages) + Unreadables(directory, packages)
        invariant stats.(archives := 0, packageDirectories := 0)
                  == old(stats).(archives := 0, packageDirectories := 0)
        invariant stats.archives + Readables(packages[i..], true)
                  == old(stats.archives) + Readables(packages, true)
        invariant stats.packageDirectories + Readables(packages[i..], false)
                  == old(stats.packageDirectories) + Readables(packages, false)
      {
        ghost var before := found;
        assert packages[i..][1..] == packages[i + 1..];
        ThenAssociates(before, PackageFound(directory, packages[i]),
                       PackagesFound(directory, packages[i + 1..]));
        ScanAndCount(directory, packages[i]);
      }
      assert packages[|packages|..] == [];
      ThenNothing(found);
    }

    method ScanAndCount(directory: string, package: DirEntry)
      requires Valid()
      modifies this
      ensures Valid() && found == old(found).Then(PackageFound(directory, package))
      ensures skippedPackages
              == old(skippedPackages)
                 + (if Readable(package) then [] else [directory + "/" + package.name])
      ensures stats == old(stats).(
                archives := old(stats.archives)
                            + (if Readable(package) && package.contents.Archive? then 1 else 0),
                packageDirectories := old(stats.packageDirectories)
                            + (if Readable(package) && !package.contents.Archive? then 1 else 0))
    {
      var read := ScanPackage(directory, package);
      if !read {
        skippedPackages := skippedPackages + [directory + "/" + package.name];
      } else if package.contents.Archive? {
        stats := stats.(archives := stats.archives + 1);
      } else {
        stats := stats.(packageDirectories := stats.packageDirectories + 1);
      }
    }

    method ScanPackage(directory: string, package: DirEntry) returns (read: bool)
      requires Valid()
      modifies this`maps, this`skipped, this`found
      ensures Valid() && found == old(found).Then(PackageFound(directory, package))
      ensures read == Readable(package)
    {
      var path := directory + "/" + package.name;
      ThenNothing(found);
      match package.contents {
        case Archive(entries) =>
          if entries.None? {
            return false;
          }
          read := ScanArchive(path, entries.value);
        case Folder(files) =>
          if files.None? {
            return false;
          }
          var _ := ScanTree(path, PackageTree, Sorted(files.value, FileOrder()));
          read := true;
      }
    }

    /** Entries are added one by one; an unreadable one ends the scan and undoes nothing. */
    method ScanArchive(path: string, entries: seq<ArchiveEntry>) returns (read: bool)
      requires Valid()
      modifies this`maps, this`skipped, this`found
      ensures Valid() && found == old(found).Then(ReadArchive(path, entries))
      ensures read == Intact(entries)
    {
      hide EntryFound;
      assert entries[0..] == entries;
      for i := 0 to |entries|
        invariant Valid() && Intact(entries[..i])
        invariant found.Then(ReadArchive(path, entries[i..]))
                  == old(found).Then(ReadArchive(path, entries))
      {
        var entry := entries[i];
        if entry.BadEntry? {
          ThenNothing(found);
          return false;
        }
        assert entries[i..][1..] == entries[i + 1..];
        ThenAssociates(found, EntryFound(path, entry), ReadArchive(path, entries[i + 1..]));
        AddEntry(path, entry);
      }
      assert entries[|entries|..] == [] && entries[..|entries|] == entries;
      ThenNothing(found);
      read := true;
    }

    method AddEntry(path: string, entry: ArchiveEntry)
      requires Valid() && entry.ArchiveEntry?
      modifies this`maps, this`skipped, this`found
      ensures Valid() && found == old(found).Then(EntryFound(path, entry))
    {
      ThenNothing(found);
      var named := NormalizedBspPath(entry.name);
      if named.Some? {
        if entry.header.Failure? {
          Skip(SkippedEntry(path, entry.name, entry.header.error));
        } else {
          Add(Hit(named.value.0, named.value.1, Pk3(path, entry.name, entry.header.value)));
        }
      }
    }

    method ScanTree(root: string, kind: TreeKind, files: seq<TreeFile>) returns (candidates: nat)
      requires Valid()
      modifies this`maps, this`skipped, this`found
      ensures Valid() && found == old(found).Then(ReadTree(root, kind, files))
      ensures candidates == Candidates(files)
    {
      candidates := 0;
      assert files[0..] == files;
      for i := 0 to |files|
        invariant Valid()
        invariant found.Then(ReadTree(root, kind, files[i..]))
                  == old(found).Then(ReadTree(root, kind, files))
        invariant candidates + Candidates(files[i..]) == Candidates(files)
      {
        var file := files[i];
        assert files[i..][1..] == files[i + 1..];
        ThenAssociates(found, FileFound(root, kind, file), ReadTree(root, kind, files[i + 1..]));
        ThenNothing(found);
        if Candidate(file) {
          candidates := candidates + 1;
          var named := NormalizedBspPath(file.path);
          if named.Some? {
            if file.header.Failure? {
              Skip(SkippedEntry(root + "/" + file.path, file.path, file.header.error));
            } else {
              Add(Hit(named.value.0, named.value.1,
                      TreeProvider(root, kind, file, file.header.value)));
            }
          }
        }
      }
      assert files[|files|..] == [];
      ThenNothing(found);
    }

    method Add(hit: Hit)
      requires Valid()
      modifies this`maps, this`found
      ensures Valid() && found == old(found).Then(Found([hit], []))
    {
      var previous := if hit.key in maps then maps[hit.key].providers else [];
      maps := maps[hit.key := Map(hit.key, hit.display, previous + [hit.provider])];
      ghost var hits := found.hits;
      forall key ensures BuildingAt(maps, hits + [hit], key) {
        assert BuildingAt(old(maps), hits, key);
        NewestOfAdded(hits, hit, key);
        assert ([hit] + Newest(hits, key))[1..] == Newest(hits, key);
      }
      found := found.Then(Found([hit], []));
    }

    method Skip(entry: SkippedEntry)
      requires Valid()
      modifies this`skipped, this`found
      ensures Valid() && found == old(found).Then(Found([], [entry]))
    {
      skipped := skipped + [entry];
      assert found.hits + [] == found.hits;
      found := found.Then(Found([], [entry]));
    }

    /** Turn addition order into lookup order, once, and count. */
    method UpdateStats()
      requires Valid()
      modifies this`maps, this`stats
      ensures forall key :: IndexedAt(maps, found.hits, key)
      ensures stats == old(stats).(
                maps := |maps|, multiProviderMaps := |MultiProvider(maps)|,
                skippedEntries := |skipped|, skippedPackages := |skippedPackages|)
    {
      var pending := maps.Keys;
      while pending != {}
        invariant pending <= maps.Keys == old(maps).Keys
        invariant forall key :: key in maps ==>
                    maps[key] == if key in pending then old(maps)[key]
                                 else old(maps)[key].(providers := Reversed(old(maps)[key].providers))
        invariant stats == old(stats)
        decreases pending
      {
        var key :| key in pending;
        maps := maps[key := maps[key].(providers := Reversed(maps[key].providers))];
        pending := pending - {key};
      }
      forall key ensures IndexedAt(maps, found.hits, key) {
        assert BuildingAt(old(maps), found.hits, key);
        ReversedTwice(ProvidersOf(Newest(found.hits, key)));
      }
      stats := stats.(maps := |maps|, multiProviderMaps := |MultiProvider(maps)|,
                      skippedEntries := |skipped|, skippedPackages := |skippedPackages|);
    }
  }
}
