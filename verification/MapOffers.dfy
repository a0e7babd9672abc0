/** Every map file of a chain is found under its name, and nothing else is. */
module MapOffers {
  import opened Common
  import opened Text
  import opened MapFiles
  import opened MapIndexes

  // ----- The files of a chain -----

  /** The name ends in `suffix`, whatever the case of its letters. */
  ghost predicate HasSuffix(name: string, suffix: string) {
    && |suffix| <= |name|
    && var start := |name| - |suffix|;
       forall i :: start <= i < |name| ==> LowerChar(name[i]) == suffix[i - start]
  }

  /** Everything called `.pk3` is a package, and so is a folder called `.pk3dir`. */
  lemma PackageNames(e: DirEntry)
    ensures IsPackage(e)
            <==> HasSuffix(e.name, ".pk3") || (e.contents.Folder? && HasSuffix(e.name, ".pk3dir"))
  {
    FoldedSuffix(e.name, ".pk3");
    FoldedSuffix(e.name, ".pk3dir");
  }

  lemma FoldedSuffix(name: string, suffix: string)
    ensures EndsWith(Lower(name), suffix) <==> HasSuffix(name, suffix)
  {
    hide Lower;
    var lower := Lower(name);
    if |suffix| <= |name| {
      var start := |name| - |suffix|;
      if HasSuffix(name, suffix) {
        forall i | start <= i < |name| ensures lower[i] == suffix[i - start] {}
        assert lower[start..] == suffix;
      }
      if lower[start..] == suffix {
        forall i | start <= i < |name| ensures LowerChar(name[i]) == suffix[i - start] {
          assert lower[start..][i - start] == lower[i];
        }
      }
    }
  }

  /** The entry at `n` can be reached: nothing before it ends the reading of the archive. */
  ghost predicate ReachedAt(entries: seq<ArchiveEntry>, n: int, entry: ArchiveEntry) {
    && 0 <= n < |entries| && entries[n] == entry
    && forall k :: 0 <= k <= n ==> entries[k].ArchiveEntry?
  }

  ghost predicate InArchive(d: Directory, archive: string, entry: ArchiveEntry)
    requires d.Directory?
  {
    exists e, n :: && e in d.entries && IsPackage(e) && archive == d.path + "/" + e.name
                   && e.contents.Archive? && e.contents.entries.Some?
                   && ReachedAt(e.contents.entries.value, n, entry)
  }

  ghost predicate InPackageFolder(d: Directory, directory: string, f: TreeFile)
    requires d.Directory?
  {
    exists e :: && e in d.entries && IsPackage(e) && directory == d.path + "/" + e.name
                && e.contents.Folder? && e.contents.files.Some? && f in e.contents.files.value
  }

  /** A directory holds this file, with a good header, where the provider says. */
  ghost predicate Offers(d: Directory, p: Provider)
    requires d.Directory?
  {
    match p
    case Pk3(archive, entry, header) => InArchive(d, archive, ArchiveEntry(entry, Success(header)))
    case Pk3Dir(directory, entry, header) =>
      InPackageFolder(d, directory, TreeFile(entry, true, Success(header)))
    case Loose(path, entry, header) =>
      && d.loose.Some? && TreeFile(entry, true, Success(header)) in d.loose.value
      && path == d.path + "/" + entry
  }

  /** A server's bare name for a map. */
  ghost predicate BareName(name: string) {
    && Trim(name) == name != ""
    && !("maps/" <= Lower(Slashed(name))) && !EndsWith(Lower(Slashed(name)), ".bsp")
    && name[|name| - 1] != '/' && name[|name| - 1] != '\\'
  }

  /** The file of a map, however it is spelled. */
  ghost predicate IsFileOf(path: string, name: string) {
    SameSpelling(path, "maps/" + name + ".bsp")
  }

  // ----- Paths -----

  lemma {:induction false} AfterLastSkips(s: string, c: char, n: nat)
    requires n < |s| && s[n] == c && forall i :: n < i < |s| ==> s[i] != c
    ensures AfterLast(s, c) == s[n + 1..]
    decreases |s|
  {
    if n < |s| - 1 {
      AfterLastSkips(s[..|s| - 1], c, n);
      EndOfTail(s, n + 1);
    }
  }

  lemma {:induction false} AfterLastKeeps(s: string, c: char, n: nat)
    requires n <= |s| && forall i :: n <= i < |s| ==> s[i] != c
    ensures AfterLast(s, c) == AfterLast(s[..n], c) + s[n..]
    decreases |s|
  {
    if n == |s| {
      assert s[..n] == s && s[n..] == [];
    } else {
      var front := s[..|s| - 1];
      AfterLastKeeps(front, c, n);
      assert front[..n] == s[..n];
      EndOfTail(s, n);
    }
  }

  lemma EndOfTail(s: string, n: nat)
    requires n < |s|
    ensures s[n..] == s[..|s| - 1][n..] + [s[|s| - 1]]
  {
    var front, last := s[..|s| - 1], s[|s| - 1];
    assert s == front + [last];
    assert (front + [last])[n..] == front[n..] + [last];
  }

  lemma {:induction false} AfterLastNonempty(s: string, c: char)
    requires s != "" && s[|s| - 1] != c
    ensures AfterLast(s, c) != ""
  {
  }

  /** A path that ends in a dot and three letters, after something, is a BSP when they say so. */
  lemma BspByLetters(path: string)
    requires |path| >= 5 && path[|path| - 5] != '/' && path[|path| - 4] == '.'
    requires Lower(path[|path| - 3..]) == "bsp"
    ensures IsBsp(path)
  {
    hide Lower, AfterLast;
    var n := |path| - 4;
    var extension := path[n + 1..];
    BspLetters(extension);
    assert forall i :: n < i < |path| ==> path[i] == extension[i - n - 1];
    AfterLastKeeps(path, '/', n);
    AfterLastNonempty(path[..n], '/');
    var name := AfterLast(path, '/');
    LastComponent(path);
    var stem := AfterLast(path[..n], '/');
    assert name == stem + path[n..] && path[n..] == "." + extension;
    assert name[|stem|] == '.' && name[|stem| + 1..] == extension;
    AfterLastSkips(name, '.', |stem|);
  }

  lemma BspLetters(extension: string)
    requires Lower(extension) == "bsp"
    ensures |extension| == 3
    ensures forall i :: 0 <= i < 3 ==> extension[i] != '/' && extension[i] != '.'
  {
    assert |Lower(extension)| == 3;
    assert Lower(extension)[0] == 'b' && Lower(extension)[1] == 's' && Lower(extension)[2] == 'p';
  }

  /** A BSP is a file whose name ends in ".bsp", whatever the case, after something else. */
  lemma BspNames(folder: string, name: string)
    requires name != "" && name != "." && '/' !in name
    ensures IsBsp(folder + "/" + name) <==> |name| > 4 && HasSuffix(name, ".bsp")
  {
    hide Lower, HasSuffix;
    var path := folder + "/" + name;
    forall i | |folder| < i < |path| ensures path[i] != '/' {
      assert path[i] == name[i - |folder| - 1];
      assert name[i - |folder| - 1] in name;
    }
    AfterLastSkips(path, '/', |folder|);
    assert path[|folder| + 1..] == name;
    ComponentIsLast(folder, name);
    if |name| > 4 {
      ExtensionOf(name);
    } else if IsBsp(path) {
      LoweredLetters(AfterLast(name, '.'));
    }
  }

  lemma ComponentIsLast(folder: string, name: string)
    requires name != "" && name != "." && '/' !in name
    ensures FileName(folder + "/" + name) == AfterLast(folder + "/" + name, '/')
  {
    var path := folder + "/" + name;
    assert path[|path| - 1] == name[|name| - 1] && name[|name| - 1] in name;
    if |name| > 1 {
      assert path[|path| - 2] == name[|name| - 2] && name[|name| - 2] in name;
    } else {
      assert name == [name[0]];
    }
  }

  lemma ExtensionOf(name: string)
    requires |name| > 4
    ensures Lower(AfterLast(name, '.')) == "bsp" <==> HasSuffix(name, ".bsp")
  {
    hide Lower, HasSuffix, AfterLast;
    if HasSuffix(name, ".bsp") {
      SuffixLetters(name);
      AfterLastSkips(name, '.', |name| - 4);
    }
    if Lower(AfterLast(name, '.')) == "bsp" {
      SuffixOfExtension(name);
    }
  }

  lemma SuffixOfExtension(name: string)
    requires |name| > 4 && Lower(AfterLast(name, '.')) == "bsp"
    ensures HasSuffix(name, ".bsp")
  {
    hide Lower, AfterLast;
    LoweredLetters(AfterLast(name, '.'));
    var n := AfterLastFollows(name, '.');
    assert n == |name| - 3;
  }

  lemma SuffixLetters(name: string)
    requires HasSuffix(name, ".bsp")
    ensures var n := |name| - 4;
            && name[n] == '.' && Lower(name[n + 1..]) == "bsp"
            && forall i :: n < i < |name| ==> name[i] != '.'
  {
    hide Lower;
    var n := |name| - 4;
    var letters := Lower(name[n + 1..]);
    assert LowerChar(name[n]) == ".bsp"[0] && LowerChar(name[n + 1]) == ".bsp"[1];
    assert LowerChar(name[n + 2]) == ".bsp"[2] && LowerChar(name[n + 3]) == ".bsp"[3];
    assert letters[0] == 'b' && letters[1] == 's' && letters[2] == 'p';
  }

  lemma LoweredLetters(letters: string)
    requires Lower(letters) == "bsp"
    ensures |letters| == 3
    ensures LowerChar(letters[0]) == 'b' && LowerChar(letters[1]) == 's' && LowerChar(letters[2]) == 'p'
  {
    hide Lower;
    assert |Lower(letters)| == 3;
    assert Lower(letters)[0] == 'b' && Lower(letters)[1] == 's' && Lower(letters)[2] == 'p';
  }

  lemma {:induction false} AfterLastFollows(s: string, c: char) returns (n: nat)
    ensures n <= |s| && AfterLast(s, c) == s[n..] && (n > 0 ==> s[n - 1] == c)
    decreases |s|
  {
    n := |s|;
    if s != "" && s[|s| - 1] != c {
      n := AfterLastFollows(s[..|s| - 1], c);
      EndOfTail(s, n);
    }
  }

  lemma LastComponent(path: string)
    requires |path| >= 2 && path[|path| - 1] != '/' && path[|path| - 1] != '.'
    ensures FileName(path) == AfterLast(path, '/')
  {
    assert path[|path| - 2..][1] == path[|path| - 1];
  }

  /** The file of a map is taken for it: its key is the name's, and it is shown as it is spelled. */
  lemma FileIsTaken(path: string, name: string)
    requires BareName(name) && IsFileOf(path, name)
    ensures IsBsp(path)
    ensures var named := NormalizedBspPath(path);
            && named.Some? && KeyOf(name) == Some(named.value.0)
            && SameSpelling(named.value.1, name)
  {
    hide IsBsp, KeyOf, Lower, Slashed;
    var whole := "maps/" + name + ".bsp";
    SpelledPath(path, name);
    FileIsFoundByName(name);
    SpellingIsIgnored(path, whole);
    var slashed := Slashed(path);
    SlashesAreSpelling(path);
    SpelledPath(slashed, name);
    SpellingIsIgnored(slashed, whole);
    BspPathIsLong(Lower(slashed));
    var display := slashed[5..|slashed| - 4];
    forall i | 0 <= i < |name| ensures Folded(display[i]) == Folded(name[i]) {
      assert display[i] == slashed[i + 5] && whole[i + 5] == name[i];
      assert Folded(slashed[i + 5]) == Folded(whole[i + 5]);
    }
  }

  lemma SlashesAreSpelling(path: string)
    ensures SameSpelling(Slashed(path), path)
  {
  }

  /** What any spelling of a map's file looks like, letter by letter. */
  lemma SpelledPath(path: string, name: string)
    requires BareName(name) && IsFileOf(path, name)
    ensures |path| == |name| + 9 && Trim(path) == path
    ensures "maps/" <= Lower(Slashed(path)) && IsBsp(path) && IsBsp(Lower(Slashed(path)))
  {
    var whole, n := "maps/" + name + ".bsp", |name| + 5;
    assert |path| == |whole| == n + 4;
    SpelledStart(path, whole);
    SpelledEnd(path, whole, n);
    BspByLetters(path);
    var lower := Lower(Slashed(path));
    SpelledEnd(lower, whole, n) by { LoweredIsSpelling(path, whole); }
    BspByLetters(lower);
  }

  lemma LoweredIsSpelling(path: string, whole: string)
    requires SameSpelling(path, whole)
    ensures SameSpelling(Lower(Slashed(path)), whole)
  {
  }

  lemma SpelledStart(path: string, whole: string)
    requires SameSpelling(path, whole) && "maps/" <= whole && |whole| > 5
    requires whole[|whole| - 1] == 'p'
    ensures Trim(path) == path && "maps/" <= Lower(Slashed(path))
  {
    assert Folded(path[0]) == 'm' && Folded(path[|path| - 1]) == 'p';
    forall i | 0 <= i < 5 ensures Lower(Slashed(path))[i] == "maps/"[i] {
      assert Folded(path[i]) == Folded(whole[i]) == "maps/"[i];
    }
  }

  lemma SpelledEnd(path: string, whole: string, n: nat)
    requires SameSpelling(path, whole) && n > 0 && |whole| == n + 4 && whole[n..] == ".bsp"
    requires whole[n - 1] != '/' && whole[n - 1] != '\\'
    ensures path[n - 1] != '/' && path[n] == '.' && Lower(path[n + 1..]) == "bsp"
  {
    assert whole[n] == '.' && whole[n + 1] == 'b' && whole[n + 2] == 's' && whole[n + 3] == 'p';
    assert Folded(path[n - 1]) == Folded(whole[n - 1]);
    assert Folded(path[n]) == '.';
    assert Folded(path[n + 1]) == 'b' && Folded(path[n + 2]) == 's' && Folded(path[n + 3]) == 'p';
    var letters := path[n + 1..];
    assert |letters| == 3 && |Lower(letters)| == 3;
    assert Lower(letters)[0] == 'b' && Lower(letters)[1] == 's' && Lower(letters)[2] == 'p';
  }

  // ----- From files to hits -----

  lemma {:induction false} ArchiveHits(archive: string, entries: seq<ArchiveEntry>, hit: Hit)
    ensures hit in ReadArchive(archive, entries).hits
            <==> exists n, entry :: ReachedAt(entries, n, entry) && hit in EntryFound(archive, entry).hits
  {
    hide EntryFound;
    if entries != [] && entries[0].ArchiveEntry? {
      var rest := entries[1..];
      ArchiveHits(archive, rest, hit);
      if hit in EntryFound(archive, entries[0]).hits {
        assert ReachedAt(entries, 0, entries[0]);
      }
      if n, entry :| ReachedAt(rest, n, entry) && hit in EntryFound(archive, entry).hits {
        assert forall k :: 0 < k <= n + 1 ==> entries[k] == rest[k - 1];
        assert ReachedAt(entries, n + 1, entry);
      }
      forall n, entry | ReachedAt(entries, n, entry) && hit in EntryFound(archive, entry).hits
        ensures hit in ReadArchive(archive, entries).hits
      {
        if n > 0 {
          assert forall k :: 0 <= k < n ==> rest[k] == entries[k + 1];
          assert ReachedAt(rest, n - 1, entry);
        }
      }
    } else {
      forall n, entry ensures !ReachedAt(entries, n, entry) {}
    }
  }

  lemma {:induction false} TreeHits(root: string, kind: TreeKind, files: seq<TreeFile>, hit: Hit)
    ensures hit in ReadTree(root, kind, files).hits
            <==> exists f :: f in files && hit in FileFound(root, kind, f).hits
  {
    hide FileFound;
    if files != [] {
      TreeHits(root, kind, files[1..], hit);
      assert files == [files[0]] + files[1..];
    }
  }

  lemma SortedHolds<T>(xs: seq<T>, less: (T, T) -> bool)
    ensures forall x :: x in Sorted(xs, less) <==> x in xs
  {
    hide Sorted;
    SortedKeeps(xs, less);
    forall x ensures x in Sorted(xs, less) <==> x in xs {
      assert x in multiset(Sorted(xs, less)) <==> x in multiset(xs);
    }
  }

  lemma {:induction false} PackagesHold(entries: seq<DirEntry>)
    ensures forall e :: e in Packages(entries) <==> e in entries && IsPackage(e)
  {
    hide IsPackage;
    if entries != [] {
      PackagesHold(entries[1..]);
      assert entries == [entries[0]] + entries[1..];
    }
  }

  lemma {:induction false} PackagesHits(directory: string, packages: seq<DirEntry>, hit: Hit)
    ensures hit in PackagesFound(directory, packages).hits
            <==> exists e :: e in packages && hit in PackageFound(directory, e).hits
  {
    hide PackageFound;
    if packages != [] {
      PackagesHits(directory, packages[1..], hit);
      assert packages == [packages[0]] + packages[1..];
    }
  }

  lemma DirectoryHits(d: Directory, hit: Hit)
    requires d.Directory?
    ensures hit in DirectoryFound(d).hits
            <==> || hit in LooseFound(d).hits
                 || exists e :: e in d.entries && IsPackage(e) && hit in PackageFound(d.path, e).hits
  {
    hide PackageFound, LooseFound, IsPackage, Sorted, Packages;
    var packages := Packages(d.entries);
    PackagesHold(d.entries);
    SortedHolds(packages, PackageOrder());
    PackagesHits(d.path, Sorted(packages, PackageOrder()), hit);
  }

  lemma {:induction false} ChainHits(dirs: seq<Directory>, hit: Hit)
    requires AllScannable(dirs)
    ensures hit in ChainFound(dirs).hits
            <==> exists i :: 0 <= i < |dirs| && hit in DirectoryFound(dirs[i]).hits
  {
    hide DirectoryFound;
    if dirs != [] {
      ChainHits(dirs[1..], hit);
      if i :| 0 <= i < |dirs[1..]| && hit in DirectoryFound(dirs[1..][i]).hits {
        assert hit in DirectoryFound(dirs[i + 1]).hits;
      }
      forall i | 0 <= i < |dirs| && hit in DirectoryFound(dirs[i]).hits
        ensures hit in ChainFound(dirs).hits
      {
        if i > 0 {
          assert dirs[1..][i - 1] == dirs[i];
        }
      }
    }
  }

  /** What a file with a good header yields, when its path names a map. */
  ghost predicate IsHitOf(hit: Hit) {
    NormalizedBspPath(hit.provider.entry) == Some((hit.key, hit.display))
  }

  lemma PackageHits(d: Directory, hit: Hit)
    requires d.Directory?
    ensures (exists e :: e in d.entries && IsPackage(e) && hit in PackageFound(d.path, e).hits)
            <==> && !hit.provider.Loose? && Offers(d, hit.provider) && IsHitOf(hit)
                 && (hit.provider.Pk3Dir? ==> IsBsp(hit.provider.entry))
  {
    hide NormalizedBspPath, IsBsp, IsPackage, ReadArchive, ReadTree, Sorted;
    forall e | e in d.entries && IsPackage(e)
      ensures hit in PackageFound(d.path, e).hits <==> FromPackage(d, e, hit)
    {
      OnePackageHits(d, e, hit);
    }
  }

  /** The hit comes from this package. */
  ghost predicate FromPackage(d: Directory, e: DirEntry, hit: Hit)
    requires d.Directory?
  {
    var path := d.path + "/" + e.name;
    && IsHitOf(hit)
    && match hit.provider
       case Pk3(archive, entry, header) =>
         && archive == path && e.contents.Archive? && e.contents.entries.Some?
         && exists n :: ReachedAt(e.contents.entries.value, n, ArchiveEntry(entry, Success(header)))
       case Pk3Dir(directory, entry, header) =>
         && directory == path && e.contents.Folder? && e.contents.files.Some? && IsBsp(entry)
         && TreeFile(entry, true, Success(header)) in e.contents.files.value
       case Loose(_, _, _) => false
  }

  lemma OnePackageHits(d: Directory, e: DirEntry, hit: Hit)
    requires d.Directory?
    ensures hit in PackageFound(d.path, e).hits <==> FromPackage(d, e, hit)
  {
    hide NormalizedBspPath, IsBsp, ReadArchive, ReadTree, Sorted;
    var path := d.path + "/" + e.name;
    match e.contents
    case Archive(entries) =>
      if entries.Some? {
        ArchiveHits(path, entries.value, hit);
      }
    case Folder(files) =>
      if files.Some? {
        SortedHolds(files.value, FileOrder());
        TreeHits(path, PackageTree, Sorted(files.value, FileOrder()), hit);
      }
  }

  lemma LooseHits(d: Directory, hit: Hit)
    requires d.Directory?
    ensures hit in LooseFound(d).hits
            <==> && hit.provider.Loose? && Offers(d, hit.provider) && IsHitOf(hit)
                 && IsBsp(hit.provider.entry)
  {
    hide NormalizedBspPath, IsBsp, ReadTree, Sorted;
    if d.loose.Some? {
      SortedHolds(d.loose.value, FileOrder());
      TreeHits(d.path, LooseTree, Sorted(d.loose.value, FileOrder()), hit);
    }
  }

  // ----- From hits to the index -----

  lemma {:induction false} NewestHolds(hits: seq<Hit>, key: string)
    ensures forall hit :: hit in Newest(hits, key) <==> hit in hits && hit.key == key
  {
    if hits != [] {
      NewestHolds(hits[..|hits| - 1], key);
      assert hits == hits[..|hits| - 1] + [hits[|hits| - 1]];
    }
  }

  lemma {:induction false} ProvidersHold(hits: seq<Hit>, p: Provider)
    ensures p in ProvidersOf(hits) <==> exists hit :: hit in hits && hit.provider == p
  {
    if hits != [] {
      ProvidersHold(hits[1..], p);
      assert hits == [hits[0]] + hits[1..];
    }
  }

  lemma LookupHolds(dirs: seq<Directory>, key: string, hit: Hit)
    requires RealChain(dirs)
    ensures hit in EngineLookup(dirs, key)
            <==> hit.key == key && exists i :: 0 <= i < |dirs| && hit in DirectoryFound(dirs[i]).hits
  {
    hide EngineLookup, DirectoryFound;
    AdditionOrderReversed(dirs, key);
    NewestHolds(ChainFound(dirs).hits, key);
    ChainHits(dirs, hit);
  }

  lemma OffersAreHits(d: Directory, hit: Hit)
    requires d.Directory? && Offers(d, hit.provider) && IsHitOf(hit) && IsBsp(hit.provider.entry)
    ensures hit in DirectoryFound(d).hits
  {
    hide DirectoryFound, LooseFound, PackageFound, Offers, NormalizedBspPath, IsBsp;
    DirectoryHits(d, hit);
    LooseHits(d, hit);
    PackageHits(d, hit);
  }

  lemma HitsAreOffers(d: Directory, hit: Hit)
    requires d.Directory? && hit in DirectoryFound(d).hits
    ensures Offers(d, hit.provider) && IsHitOf(hit)
  {
    hide DirectoryFound, LooseFound, PackageFound, Offers, NormalizedBspPath, IsBsp;
    DirectoryHits(d, hit);
    LooseHits(d, hit);
    PackageHits(d, hit);
  }

  /**
   Every readable map file of a chain is indexed: a server's bare name for the map finds it, among
   the providers, however either is spelled.
   */
  lemma FilesAreIndexed(maps: Maps, dirs: seq<Directory>, i: nat, p: Provider, name: string)
    requires RealChain(dirs) && Scanned(maps, dirs) && i < |dirs| && Offers(dirs[i], p)
    requires BareName(name) && IsFileOf(p.entry, name)
    ensures var found := Get(maps, name);
            && found.Some? && p in found.value.providers
  {
    hide Offers, NormalizedBspPath, IsBsp, KeyOf, EngineLookup, DirectoryFound, BareName, IsFileOf;
    FileIsTaken(p.entry, name);
    var named := NormalizedBspPath(p.entry).value;
    var hit := Hit(named.0, named.1, p);
    OffersAreHits(dirs[i], hit);
    LookupHolds(dirs, hit.key, hit);
    ProvidersHold(EngineLookup(dirs, hit.key), p);
    assert hit in EngineLookup(dirs, hit.key);
  }

  /** Every provider listed under a key is a readable file of the chain whose own key that is. */
  lemma ProvidersAreFiles(maps: Maps, dirs: seq<Directory>, key: string, p: Provider)
    requires RealChain(dirs) && Scanned(maps, dirs)
    requires key in maps && p in maps[key].providers
    ensures KeyOf(p.entry) == Some(key)
    ensures var lower := Lower(Slashed(Trim(p.entry))); "maps/" <= lower && IsBsp(lower)
    ensures exists i :: 0 <= i < |dirs| && Offers(dirs[i], p)
  {
    hide Offers, EngineLookup, DirectoryFound, IsBsp, KeyOf;
    var lookup := EngineLookup(dirs, key);
    ProvidersHold(lookup, p);
    var hit :| hit in lookup && hit.provider == p;
    LookupHolds(dirs, key, hit);
    var i :| 0 <= i < |dirs| && hit in DirectoryFound(dirs[i]).hits;
    HitsAreOffers(dirs[i], hit);
    KeyOfSlashed(p.entry);
  }

  lemma KeyOfSlashed(path: string)
    ensures KeyOf(Slashed(Trim(path))) == KeyOf(path)
  {
    TrimmedTwice(path);
    SlashesAreSpelling(Trim(path));
    SpellingIsIgnored(Slashed(Trim(path)), Trim(path));
  }

  lemma {:induction false} StartTrimmed(s: string)
    ensures TrimStart(s) == "" || !WhiteSpace(TrimStart(s)[0])
  {
    hide WhiteSpace;
    if s != "" && WhiteSpace(s[0]) {
      StartTrimmed(s[1..]);
    }
  }

  lemma {:induction false} EndTrimmed(s: string)
    ensures TrimEnd(s) == "" || !WhiteSpace(TrimEnd(s)[|TrimEnd(s)| - 1])
    ensures TrimEnd(s) <= s
    decreases |s|
  {
    hide WhiteSpace;
    if s != "" && WhiteSpace(s[|s| - 1]) {
      EndTrimmed(s[..|s| - 1]);
    }
  }

  lemma TrimmedTwice(s: string)
    ensures Trim(Trim(s)) == Trim(s)
    ensures KeyOf(Trim(s)) == KeyOf(s)
  {
    hide WhiteSpace;
    StartTrimmed(s);
    EndTrimmed(TrimStart(s));
  }

  /** White space around a name does not count. */
  lemma OuterSpaceIsIgnored(name: string, c: char)
    requires WhiteSpace(c)
    ensures KeyOf([c] + name) == KeyOf(name) == KeyOf(name + [c])
  {
    hide WhiteSpace;
    assert ([c] + name)[1..] == name;
    SpaceAtEnd(name, c);
  }

  lemma {:induction false} SpaceAtEnd(name: string, c: char)
    requires WhiteSpace(c)
    ensures Trim(name + [c]) == Trim(name)
  {
    hide WhiteSpace;
    if name == "" {
      assert name + [c] == [c];
      assert TrimStart([c]) == TrimStart([c][1..]);
    } else if WhiteSpace(name[0]) {
      SpaceAtEnd(name[1..], c);
      assert (name + [c])[1..] == name[1..] + [c];
    } else {
      assert (name + [c])[..|name|] == name;
    }
  }

  /** A map is shown as the file the engine loads spells it. */
  lemma ShownAsLoaded(maps: Maps, dirs: seq<Directory>, key: string)
    requires RealChain(dirs) && Scanned(maps, dirs) && key in maps
    ensures maps[key].name == key && maps[key].providers != []
    ensures var slashed := Slashed(Trim(maps[key].providers[0].entry));
            |slashed| >= 10 && maps[key].displayName == slashed[5..|slashed| - 4]
  {
    hide Offers, EngineLookup, DirectoryFound, IsBsp, KeyOf;
    var lookup := EngineLookup(dirs, key);
    var hit := lookup[0];
    assert hit in lookup;
    LookupHolds(dirs, key, hit);
    var i :| 0 <= i < |dirs| && hit in DirectoryFound(dirs[i]).hits;
    HitsAreOffers(dirs[i], hit);
    BspPathIsLong(Lower(Slashed(Trim(hit.provider.entry))));
  }

  // ----- Bad headers -----

  lemma {:induction false} ArchiveSkips(
    archive: string, entries: seq<ArchiveEntry>, skip: SkippedEntry)
    ensures skip in ReadArchive(archive, entries).skips
            <==> exists n, entry :: ReachedAt(entries, n, entry) && skip in EntryFound(archive, entry).skips
  {
    hide EntryFound;
    if entries != [] && entries[0].ArchiveEntry? {
      var rest := entries[1..];
      ArchiveSkips(archive, rest, skip);
      if skip in EntryFound(archive, entries[0]).skips {
        assert ReachedAt(entries, 0, entries[0]);
      }
      if n, entry :| ReachedAt(rest, n, entry) && skip in EntryFound(archive, entry).skips {
        assert forall k :: 0 < k <= n + 1 ==> entries[k] == rest[k - 1];
        assert ReachedAt(entries, n + 1, entry);
      }
      forall n, entry | ReachedAt(entries, n, entry) && skip in EntryFound(archive, entry).skips
        ensures skip in ReadArchive(archive, entries).skips
      {
        if n > 0 {
          assert forall k :: 0 <= k < n ==> rest[k] == entries[k + 1];
          assert ReachedAt(rest, n - 1, entry);
        }
      }
    } else {
      forall n, entry ensures !ReachedAt(entries, n, entry) {}
    }
  }

  lemma {:induction false} TreeSkips(
    root: string, kind: TreeKind, files: seq<TreeFile>, skip: SkippedEntry)
    ensures skip in ReadTree(root, kind, files).skips
            <==> exists f :: f in files && skip in FileFound(root, kind, f).skips
  {
    hide FileFound;
    if files != [] {
      TreeSkips(root, kind, files[1..], skip);
      assert files == [files[0]] + files[1..];
    }
  }

  lemma {:induction false} PackagesSkips(directory: string, packages: seq<DirEntry>, skip: SkippedEntry)
    ensures skip in PackagesFound(directory, packages).skips
            <==> exists e :: e in packages && skip in PackageFound(directory, e).skips
  {
    hide PackageFound;
    if packages != [] {
      PackagesSkips(directory, packages[1..], skip);
      assert packages == [packages[0]] + packages[1..];
    }
  }

  lemma DirectorySkips(d: Directory, skip: SkippedEntry)
    requires d.Directory?
    ensures skip in DirectoryFound(d).skips
            <==> || skip in LooseFound(d).skips
                 || exists e :: e in d.entries && IsPackage(e) && skip in PackageFound(d.path, e).skips
  {
    hide PackageFound, LooseFound, IsPackage, Sorted, Packages;
    var packages := Packages(d.entries);
    PackagesHold(d.entries);
    SortedHolds(packages, PackageOrder());
    PackagesSkips(d.path, Sorted(packages, PackageOrder()), skip);
  }

  lemma {:induction false} ChainSkips(dirs: seq<Directory>, skip: SkippedEntry)
    requires AllScannable(dirs)
    ensures skip in ChainFound(dirs).skips
            <==> exists i :: 0 <= i < |dirs| && skip in DirectoryFound(dirs[i]).skips
  {
    hide DirectoryFound;
    if dirs != [] {
      ChainSkips(dirs[1..], skip);
      if i :| 0 <= i < |dirs[1..]| && skip in DirectoryFound(dirs[1..][i]).skips {
        assert skip in DirectoryFound(dirs[i + 1]).skips;
      }
      forall i | 0 <= i < |dirs| && skip in DirectoryFound(dirs[i]).skips
        ensures skip in ChainFound(dirs).skips
      {
        if i > 0 {
          assert dirs[1..][i - 1] == dirs[i];
        }
      }
    }
  }

  /** Every reached entry that names a map and whose header is bad is reported, with its reason. */
  lemma BadEntriesAreReported(dirs: seq<Directory>, i: nat, archive: string, entry: ArchiveEntry)
    requires AllScannable(dirs) && i < |dirs| && InArchive(dirs[i], archive, entry)
    requires entry.ArchiveEntry? && entry.header.Failure? && NormalizedBspPath(entry.name).Some?
    ensures SkippedEntry(archive, entry.name, entry.header.error) in ChainFound(dirs).skips
  {
    hide NormalizedBspPath, IsPackage, ReadArchive, ChainFound, DirectoryFound, LooseFound;
    var d, skip := dirs[i], SkippedEntry(archive, entry.name, entry.header.error);
    var e, n :| && e in d.entries && IsPackage(e) && archive == d.path + "/" + e.name
                && e.contents.Archive? && e.contents.entries.Some?
                && ReachedAt(e.contents.entries.value, n, entry);
    ArchiveSkips(archive, e.contents.entries.value, skip);
    DirectorySkips(d, skip);
    ChainSkips(dirs, skip);
  }

  /** Every file of a package folder or loose in a directory whose header is bad is reported. */
  lemma BadFilesAreReported(
    dirs: seq<Directory>, i: nat, root: string, loose: bool, f: TreeFile)
    requires AllScannable(dirs) && i < |dirs|
    requires if loose then dirs[i].loose.Some? && f in dirs[i].loose.value && root == dirs[i].path
             else InPackageFolder(dirs[i], root, f)
    requires f.isFile && IsBsp(f.path) && f.header.Failure? && NormalizedBspPath(f.path).Some?
    ensures SkippedEntry(root + "/" + f.path, f.path, f.header.error) in ChainFound(dirs).skips
  {
    hide NormalizedBspPath, IsBsp, IsPackage, ReadTree, ChainFound, DirectoryFound, Sorted;
    var d, skip := dirs[i], SkippedEntry(root + "/" + f.path, f.path, f.header.error);
    DirectorySkips(d, skip);
    ChainSkips(dirs, skip);
    if loose {
      SortedHolds(d.loose.value, FileOrder());
      TreeSkips(root, LooseTree, Sorted(d.loose.value, FileOrder()), skip);
    } else {
      var e :| && e in d.entries && IsPackage(e) && root == d.path + "/" + e.name
               && e.contents.Folder? && e.contents.files.Some? && f in e.contents.files.value;
      SortedHolds(e.contents.files.value, FileOrder());
      TreeSkips(root, PackageTree, Sorted(e.contents.files.value, FileOrder()), skip);
    }
  }

  // ----- Which file wins -----

  /** Some file of a directory is a provider for the key. */
  ghost predicate Provides(hits: seq<Hit>, key: string) {
    exists hit :: hit in hits && hit.key == key
  }

  lemma NewestIsLast(hits: seq<Hit>, key: string)
    requires Provides(hits, key)
    ensures var newest := Newest(hits, key);
            && newest != []
            && exists i :: && 0 <= i < |hits| && hits[i] == newest[0] && hits[i].key == key
                           && forall j :: i < j < |hits| ==> hits[j].key != key
  {
    NewestHolds(hits, key);
    var i := LastHit(hits, key);
  }

  lemma {:induction false} LastHit(hits: seq<Hit>, key: string) returns (i: nat)
    requires Newest(hits, key) != []
    ensures i < |hits| && hits[i] == Newest(hits, key)[0] && hits[i].key == key
    ensures forall j :: i < j < |hits| ==> hits[j].key != key
  {
    var last := |hits| - 1;
    if hits[last].key == key {
      i := last;
    } else {
      i := LastHit(hits[..last], key);
    }
  }

  lemma NoneNewest(hits: seq<Hit>, key: string)
    ensures Newest(hits, key) == [] <==> !Provides(hits, key)
  {
    NewestHolds(hits, key);
    if Newest(hits, key) != [] {
      assert Newest(hits, key)[0] in Newest(hits, key);
    }
  }

  /** The last directory of a chain that provides a map decides it. */
  lemma {:induction false} LastDirectoryWins(dirs: seq<Directory>, key: string, i: nat)
    requires RealChain(dirs) && i < |dirs| && Provides(DirectoryFound(dirs[i]).hits, key)
    requires forall j :: i < j < |dirs| ==> !Provides(DirectoryFound(dirs[j]).hits, key)
    ensures EngineLookup(dirs, key) != [] && EngineDirectory(dirs[i], key) != []
    ensures EngineLookup(dirs, key)[0] == EngineDirectory(dirs[i], key)[0]
    decreases |dirs|
  {
    hide DirectoryFound, EngineDirectory, Provides;
    var last := |dirs| - 1;
    DirectoryAgrees(dirs[last], key);
    NoneNewest(DirectoryFound(dirs[last]).hits, key);
    if i < last {
      LastDirectoryWins(dirs[..last], key, i);
    }
  }

  /** In a directory a loose file decides a map, whatever its packages hold. */
  lemma LooseFileWins(d: Directory, key: string)
    requires d.Directory? && Provides(LooseFound(d).hits, key)
    ensures EngineDirectory(d, key) != []
    ensures EngineDirectory(d, key)[0] in LooseFound(d).hits
    ensures EngineDirectory(d, key)[0].key == key
  {
    hide LooseFound, EnginePackages, Packages;
    NewestIsLast(LooseFound(d).hits, key);
  }

  /** Otherwise it is a package, and none with a name that sorts later provides the map. */
  lemma {:induction false} GreatestPackageWins(directory: string, packages: seq<DirEntry>, key: string)
    returns (e: DirEntry)
    requires DistinctNames(packages) && EnginePackages(directory, packages, key) != []
    ensures e in packages && Newest(PackageFound(directory, e).hits, key) != []
    ensures EnginePackages(directory, packages, key)[0] == Newest(PackageFound(directory, e).hits, key)[0]
    ensures forall f :: f in packages && Provides(PackageFound(directory, f).hits, key) ==>
              f == e || NameLess(f.name, e.name)
    decreases |packages|
  {
    hide PackageFound, NameLess, Provides, Newest, Greatest;
    var i := Greatest(packages, |packages|);
    var hits := PackageFound(directory, packages[i]).hits;
    NoneNewest(hits, key);
    if Newest(hits, key) != [] {
      e := packages[i];
      GreatestIsGreatest(packages, |packages|);
    } else {
      e := GreatestPackageWins(directory, Without(packages, i), key);
      WithoutHolds(packages, i);
    }
  }

  lemma WithoutHolds<T>(xs: seq<T>, i: nat)
    requires i < |xs|
    ensures forall x :: x in xs && x != xs[i] ==> x in Without(xs, i)
  {
    forall x | x in xs && x != xs[i] ensures x in Without(xs, i) {
      var j :| 0 <= j < |xs| && xs[j] == x;
      assert Without(xs, i)[if j < i then j else j - 1] == x;
    }
  }

  /** The files are in the order of their folded paths. */
  ghost predicate Climbs(files: seq<TreeFile>) {
    forall i, j :: 0 <= i < j < |files| ==> !LexLess(Lower(files[j].path), Lower(files[i].path))
  }

  lemma AtMost(s: string, t: string, u: string)
    requires !LexLess(t, s) && !LexLess(u, t)
    ensures !LexLess(u, s)
  {
    LexTotal(s, t);
    LexTotal(t, u);
    if LexLess(u, s) {
      if LexLess(s, t) {
        LexTransitive(u, s, t);
      }
    }
  }

  lemma {:induction false} InsertClimbs(f: TreeFile, sorted: seq<TreeFile>)
    requires Climbs(sorted)
    ensures Climbs(Insert(f, sorted, FileOrder()))
  {
    hide Lower, LexLess, Climbs;
    if sorted == [] {
      ClimbsOn(f, sorted);
    } else {
      var first, rest := sorted[0], sorted[1..];
      ClimbsOff(sorted);
      LexTotal(Lower(first.path), Lower(f.path));
      if FileOrder()(first, f) {
        InsertClimbs(f, rest);
        InsertKeeps(f, rest, FileOrder());
        forall g | g in Insert(f, rest, FileOrder()) ensures NoneBelow(first, [g]) {
          assert g in multiset(Insert(f, rest, FileOrder()));
        }
        ClimbsOn(first, Insert(f, rest, FileOrder()));
      } else {
        forall g | g in rest ensures NoneBelow(f, [g]) {
          AtMost(Lower(f.path), Lower(first.path), Lower(g.path));
        }
        assert sorted == [first] + rest;
        ClimbsOn(f, sorted);
      }
    }
  }

  ghost predicate NoneBelow(f: TreeFile, files: seq<TreeFile>) {
    forall g :: g in files ==> !LexLess(Lower(g.path), Lower(f.path))
  }

  lemma ClimbsOn(f: TreeFile, files: seq<TreeFile>)
    requires Climbs(files) && NoneBelow(f, files)
    ensures Climbs([f] + files)
  {
    hide Lower, LexLess;
  }

  lemma ClimbsOff(files: seq<TreeFile>)
    requires Climbs(files) && files != []
    ensures Climbs(files[1..]) && NoneBelow(files[0], files[1..])
  {
    hide Lower, LexLess;
  }

  lemma {:induction false} SortedClimbs(files: seq<TreeFile>)
    ensures Climbs(Sorted(files, FileOrder()))
  {
    if files != [] {
      SortedClimbs(files[1..]);
      InsertClimbs(files[0], Sorted(files[1..], FileOrder()));
    }
  }

  lemma {:induction false} LastFile(root: string, kind: TreeKind, files: seq<TreeFile>, key: string)
    returns (f: TreeFile)
    requires Climbs(files) && Newest(ReadTree(root, kind, files).hits, key) != []
    ensures f in files
    ensures Newest(ReadTree(root, kind, files).hits, key)[0] in FileFound(root, kind, f).hits
    ensures forall g :: g in files && Provides(FileFound(root, kind, g).hits, key) ==>
              !LexLess(Lower(f.path), Lower(g.path))
  {
    hide FileFound, Provides, Newest, Lower, LexLess;
    assert files != [] by { EmptyTree(root, kind, key); }
    var rest := files[1..];
    var hits := ReadTree(root, kind, rest).hits;
    NewestOfConcat(FileFound(root, kind, files[0]).hits, hits, key);
    if Newest(hits, key) != [] {
      f := LastFile(root, kind, rest, key);
    } else {
      f := files[0];
      LexTotal(Lower(f.path), Lower(f.path));
      NewestHolds(FileFound(root, kind, f).hits, key);
      forall g | g in rest ensures !Provides(FileFound(root, kind, g).hits, key) {
        NothingProvided(root, kind, rest, g, key);
      }
    }
  }

  lemma EmptyTree(root: string, kind: TreeKind, key: string)
    ensures Newest(ReadTree(root, kind, []).hits, key) == []
  {
  }

  lemma NothingProvided(root: string, kind: TreeKind, files: seq<TreeFile>, f: TreeFile, key: string)
    requires f in files && Newest(ReadTree(root, kind, files).hits, key) == []
    ensures !Provides(FileFound(root, kind, f).hits, key)
  {
    hide FileFound, ReadTree, Newest;
    NoneNewest(ReadTree(root, kind, files).hits, key);
    forall hit | hit in FileFound(root, kind, f).hits ensures hit.key != key {
      TreeHits(root, kind, files, hit);
    }
  }

  /** Among the files of one tree, the last in the order of folded paths wins. */
  lemma GreatestFileWins(root: string, kind: TreeKind, files: seq<TreeFile>, key: string)
    returns (f: TreeFile)
    requires Newest(ReadTree(root, kind, Sorted(files, FileOrder())).hits, key) != []
    ensures f in files
    ensures Newest(ReadTree(root, kind, Sorted(files, FileOrder())).hits, key)[0]
            in FileFound(root, kind, f).hits
    ensures forall g :: g in files && Provides(FileFound(root, kind, g).hits, key) ==>
              !LexLess(Lower(f.path), Lower(g.path))
  {
    hide Sorted, FileFound, ReadTree, Newest, Provides, FileOrder, LexLess, Lower;
    SortedHolds(files, FileOrder());
    SortedClimbs(files);
    f := LastFile(root, kind, Sorted(files, FileOrder()), key);
  }

  /** Case counts last: names are first compared as if they were all small letters. */
  lemma NamesFoldFirst(p: string, q: string)
    requires Lower(p) != Lower(q)
    ensures NameLess(p, q) <==> LexLess(Lower(p), Lower(q))
  {
  }

  /** Small and capital letters are one letter until nothing else tells two names apart. */
  lemma NamesInOrder()
    ensures NameLess("A", "b") && NameLess("a", "B") && NameLess("A", "a")
    ensures NameLess("a", "a2") && NameLess("a1", "A2")
  {
    assert Lower("A") == "a" == Lower("a") && Lower("B") == "b" == Lower("b");
    OneCapital();
  }

  lemma OneCapital()
    ensures Lower("a2") == "a2" == Lower("A2") && Lower("a1") == "a1"
  {
  }
}
