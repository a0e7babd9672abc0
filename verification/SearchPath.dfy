/** The folders a game reads, lowest precedence first, and where a replacement has to go to be read. */
module SearchPaths {
  import opened Common
  import opened Discovery
  import opened Disks

  /** An expansion's folder is read on top of `main`, and Breakthrough never reads `mainta`. */
  function SearchDirectories(target: TargetGame): seq<string> {
    match target
    case AlliedAssault => ["main"]
    case Spearhead => ["main", "mainta"]
    case Breakthrough => ["main", "maintt"]
  }

  function IfDir(t: Tree, directory: Path): seq<Path> {
    if IsDir(t, directory) then [directory] else []
  }

  /** A game folder below the installation, then below the home path, where it exists. */
  function GameFolders(t: Tree, root: Path, name: string, home: Option<Path>): seq<Path> {
    IfDir(t, root + [name]) + if home.Some? then IfDir(t, home.value + [name]) else []
  }

  function SearchPathWithHome(
    t: Tree, root: Path, names: seq<string>, home: Option<Path>): seq<Path>
  {
    if names == [] then []
    else GameFolders(t, root, names[0], home) + SearchPathWithHome(t, root, names[1..], home)
  }

  function Position(path: seq<Path>, directory: Path): (position: Option<nat>)
    ensures position.Some? ==>
              && position.value < |path| && path[position.value] == directory
              && forall i :: 0 <= i < position.value ==> path[i] != directory
    ensures position.None? ==> directory !in path
  {
    if path == [] then None
    else if path[0] == directory then Some(0)
    else
      var later := Position(path[1..], directory);
      if later.Some? then Some(later.value + 1) else None
  }

  /** The folder a verified replacement of an outdated package is written to. */
  function EffectivePackageInstallDirectory(
    outdated: Path, default: Path, path: seq<Path>): Path
  {
    if outdated == [] then default
    else
      var existing := Parent(outdated);
      var was, normal := Position(path, existing), Position(path, default);
      if normal.Some? && was.Some? && normal.value >= was.value then default else existing
  }

  /** Some place of `lower` on the path comes before every place of `upper`, or with it. */
  ghost predicate NotBefore(path: seq<Path>, upper: Path, lower: Path) {
    exists j :: 0 <= j < |path| && path[j] == lower && forall i :: 0 <= i < j ==> path[i] != upper
  }

  /**
   The default folder is written to exactly when it is on the path and not searched after the
   outdated copy's folder; otherwise the replacement goes where the outdated copy is.
   */
  lemma InstallsWhere(outdated: Path, default: Path, path: seq<Path>)
    ensures var chosen := EffectivePackageInstallDirectory(outdated, default, path);
            && (outdated == [] ==> chosen == default)
            && (outdated != [] ==>
                  var existing := Parent(outdated);
                  chosen == if default in path && NotBefore(path, default, existing) then default
                            else existing)
  {
    if outdated != [] {
      var existing := Parent(outdated);
      var was, normal := Position(path, existing), Position(path, default);
      if was.Some? && normal.Some? && normal.value >= was.value {
        assert path[was.value] == existing;
        assert NotBefore(path, default, existing);
      }
    }
  }

  // ----- The copy the engine sees -----

  /** The folder searched first, among those that hold a package of this name. */
  function TopCopy(path: seq<Path>, holding: set<Path>): Option<Path> {
    if path == [] then None
    else
      var last := |path| - 1;
      if path[last] in holding then Some(path[last]) else TopCopy(path[..last], holding)
  }

  /** No later place on the path for `upper` than the last place for `lower`. */
  ghost predicate LastBelow(path: seq<Path>, upper: Path, lower: Path) {
    exists i :: && 0 <= i < |path| && path[i] == lower
                && forall j :: i < j < |path| ==> path[j] != upper && path[j] != lower
  }

  lemma {:induction false} TopIsLast(path: seq<Path>, holding: set<Path>, i: nat)
    requires i < |path|
    ensures (path[i] in holding && forall j :: i < j < |path| ==> path[j] !in holding) ==>
              TopCopy(path, holding) == Some(path[i])
  {
    var last := |path| - 1;
    if i < last {
      TopIsLast(path[..last], holding, i);
    }
  }

  lemma {:induction false} TopIsSomewhere(path: seq<Path>, holding: set<Path>) returns (i: nat)
    ensures TopCopy(path, holding).None? <==> forall j :: 0 <= j < |path| ==> path[j] !in holding
    ensures TopCopy(path, holding).Some? ==>
              && i < |path| && path[i] == TopCopy(path, holding).value && path[i] in holding
              && forall j :: i < j < |path| ==> path[j] !in holding
  {
    i := 0;
    if path != [] {
      var last := |path| - 1;
      if path[last] in holding {
        i := last;
      } else {
        i := TopIsSomewhere(path[..last], holding);
      }
    }
  }

  /** The default folder is written to although a copy in `existing` is searched before it. */
  ghost predicate Hides(path: seq<Path>, existing: Path, default: Path) {
    && default != existing && default in path && existing in path
    && Position(path, default).value > Position(path, existing).value
    && LastBelow(path, default, existing)
  }

  /**
   On any search path, the replacement of the outdated copy the engine sees becomes the copy the
   engine sees, unless the default folder first comes up after the outdated copy's folder, and the
   outdated copy's folder comes up again after the default folder's last place.
   */
  lemma ReplacementIsSeen(path: seq<Path>, holding: set<Path>, outdated: Path, default: Path)
    requires outdated != [] && TopCopy(path, holding) == Some(Parent(outdated))
    ensures var chosen := EffectivePackageInstallDirectory(outdated, default, path);
            && (TopCopy(path, holding + {chosen}) == Some(chosen)
                <==> !Hides(path, Parent(outdated), default))
            && (chosen == default || chosen == Parent(outdated))
  {
    var existing := Parent(outdated);
    var chosen := EffectivePackageInstallDirectory(outdated, default, path);
    var i := TopIsSomewhere(path, holding);
    if chosen == existing || forall j :: i < j < |path| ==> path[j] != chosen {
      TopIsLast(path, holding + {chosen}, i);
    } else {
      var k := LastPlace(path, chosen);
      TopIsLast(path, holding + {chosen}, k);
    }
  }

  function LastPlace(path: seq<Path>, directory: Path): (k: nat)
    requires directory in path
    ensures k < |path| && path[k] == directory
    ensures forall j :: k < j < |path| ==> path[j] != directory
  {
    if path[|path| - 1] == directory then |path| - 1 else LastPlace(path[..|path| - 1], directory)
  }

  /** A folder listed twice with another in between can hide the replacement. */
  lemma RepeatedFolderHidesReplacement(old_: Path, default: Path)
    requires old_ != default
    ensures var path := [old_, default, old_];
            var chosen := EffectivePackageInstallDirectory(old_ + ["pak.pk3"], default, path);
            && TopCopy(path, {old_}) == Some(old_)
            && chosen == default && TopCopy(path, {old_, chosen}) == Some(old_)
  {
    var path := [old_, default, old_];
    assert Parent(old_ + ["pak.pk3"]) == old_;
    assert path[1..][0] == default;
    assert Position(path[1..], default) == Some(0);
  }

  // ----- The paths the program builds -----

  /** Repeats of a folder, if any, are next to each other. */
  ghost predicate Grouped(path: seq<Path>) {
    forall i, j, k :: 0 <= i < j < k < |path| && path[i] == path[k] ==> path[j] == path[i]
  }

  lemma DistinctIsGrouped(path: seq<Path>)
    requires Distinct(path)
    ensures Grouped(path)
  {
  }

  /** Without a folder that is left and returned to, the replacement is always seen. */
  lemma GroupedReplacementIsSeen(
    path: seq<Path>, holding: set<Path>, outdated: Path, default: Path)
    requires Grouped(path)
    requires outdated != [] && TopCopy(path, holding) == Some(Parent(outdated))
    ensures var chosen := EffectivePackageInstallDirectory(outdated, default, path);
            TopCopy(path, holding + {chosen}) == Some(chosen)
  {
    ReplacementIsSeen(path, holding, outdated, default);
  }

  /** On a search path that lists no folder twice, the replacement is always seen. */
  lemma DistinctReplacementIsSeen(
    path: seq<Path>, holding: set<Path>, outdated: Path, default: Path)
    requires Distinct(path)
    requires outdated != [] && TopCopy(path, holding) == Some(Parent(outdated))
    ensures var chosen := EffectivePackageInstallDirectory(outdated, default, path);
            TopCopy(path, holding + {chosen}) == Some(chosen)
  {
    DistinctIsGrouped(path);
    GroupedReplacementIsSeen(path, holding, outdated, default);
  }

  /** What is on a path ends in one of the names, below the installation or below the home path. */
  lemma {:induction false} PathNames(t: Tree, root: Path, names: seq<string>, home: Option<Path>)
    ensures forall d :: d in SearchPathWithHome(t, root, names, home) ==>
              d != [] && d[|d| - 1] in names
  {
    if names != [] {
      PathNames(t, root, names[1..], home);
    }
  }

  /**
   The path built from distinct names never leaves a folder and returns to it, even when the home
   path is the installation itself; otherwise it lists nothing twice.
   */
  lemma {:induction false} BuiltPathIsGrouped(
    t: Tree, root: Path, names: seq<string>, home: Option<Path>)
    requires Distinct(names)
    ensures Grouped(SearchPathWithHome(t, root, names, home))
    ensures home != Some(root) ==> Distinct(SearchPathWithHome(t, root, names, home))
  {
    hide SearchPathWithHome, GameFolders, Grouped, Distinct;
    PathStarts(t, root, names, home);
    if names != [] {
      var front, rest := GameFolders(t, root, names[0], home),
                         SearchPathWithHome(t, root, names[1..], home);
      RestIsDistinct(names);
      BuiltPathIsGrouped(t, root, names[1..], home);
      PathNames(t, root, names[1..], home);
      FoldersAreGrouped(t, root, names[0], home);
      GroupedConcat(front, rest);
    }
  }

  lemma RestIsDistinct(names: seq<string>)
    requires names != [] && Distinct(names)
    ensures Distinct(names[1..]) && names[0] !in names[1..]
  {
  }

  lemma PathStarts(t: Tree, root: Path, names: seq<string>, home: Option<Path>)
    ensures Grouped([]) && Distinct<Path>([])
    ensures SearchPathWithHome(t, root, names, home)
            == if names == [] then []
               else GameFolders(t, root, names[0], home)
                    + SearchPathWithHome(t, root, names[1..], home)
  {
  }

  lemma FoldersAreGrouped(t: Tree, root: Path, name: string, home: Option<Path>)
    ensures Grouped(GameFolders(t, root, name, home))
    ensures home != Some(root) ==> Distinct(GameFolders(t, root, name, home))
    ensures forall d :: d in GameFolders(t, root, name, home) ==> d != [] && d[|d| - 1] == name
  {
    assert (root + [name])[..|root|] == root;
    assert home.Some? ==> (home.value + [name])[..|home.value|] == home.value;
  }

  lemma GroupedConcat(front: seq<Path>, rest: seq<Path>)
    requires forall d :: d in front ==> d !in rest
    ensures Grouped(front) && Grouped(rest) ==> Grouped(front + rest)
    ensures Distinct(front) && Distinct(rest) ==> Distinct(front + rest)
  {
    assert forall i :: 0 <= i < |front| ==> front[i] in front;
    assert forall i :: 0 <= i < |rest| ==> rest[i] in rest;
  }

  // ----- What is on them, and in which order -----

  /** The folders a game reads below the installation and below the home path. */
  ghost predicate GameReads(target: TargetGame, name: string) {
    || name == "main"
    || (target.Spearhead? && name == "mainta")
    || (target.Breakthrough? && name == "maintt")
  }

  ghost predicate Below(d: Path, root: Path, home: Option<Path>, name: string) {
    d == root + [name] || (home.Some? && d == home.value + [name])
  }

  /** The path holds the existing folders of the game and of no other, at home or installed. */
  lemma PathHolds(t: Tree, root: Path, target: TargetGame, home: Option<Path>, d: Path)
    ensures d in SearchPathWithHome(t, root, SearchDirectories(target), home)
            <==> IsDir(t, d) && exists name :: GameReads(target, name) && Below(d, root, home, name)
  {
    hide IsDir;
    var names := SearchDirectories(target);
    NamesHold(t, root, names, home, d);
    forall name ensures GameReads(target, name) <==> name in names {}
  }

  lemma {:induction false} NamesHold(
    t: Tree, root: Path, names: seq<string>, home: Option<Path>, d: Path)
    ensures d in SearchPathWithHome(t, root, names, home)
            <==> IsDir(t, d) && exists name :: name in names && Below(d, root, home, name)
  {
    hide IsDir, GameFolders, Below, SearchPathWithHome;
    PathStarts(t, root, names, home);
    if names != [] {
      NamesHold(t, root, names[1..], home, d);
      FoldersHold(t, root, names[0], home, d);
      assert names == [names[0]] + names[1..];
    }
  }

  lemma FoldersHold(t: Tree, root: Path, name: string, home: Option<Path>, d: Path)
    ensures d in GameFolders(t, root, name, home) <==> IsDir(t, d) && Below(d, root, home, name)
  {
    hide IsDir;
  }

  /** Wherever both are on the path, `x` comes before `y`. */
  ghost predicate Before(path: seq<Path>, x: Path, y: Path) {
    forall i, j :: 0 <= i < |path| && 0 <= j < |path| && path[i] == x && path[j] == y ==> i < j
  }

  lemma BeforeInConcat(front: seq<Path>, rest: seq<Path>, x: Path, y: Path)
    requires y !in front || (x !in rest && y !in rest && Before(front, x, y))
    requires y !in front ==> x !in rest || (x !in front && Before(rest, x, y))
    ensures Before(front + rest, x, y)
  {
    var path := front + rest;
    forall i, j | 0 <= i < |path| && 0 <= j < |path| && path[i] == x && path[j] == y ensures i < j {
      if i >= |front| {
        assert rest[i - |front|] == x;
      }
      if j >= |front| {
        assert rest[j - |front|] == y;
      }
    }
  }

  /** A home folder is searched before the installed one of its name. */
  lemma {:induction false} HomeOutranks(
    t: Tree, root: Path, names: seq<string>, home: Path, name: string)
    requires Distinct(names) && home != root
    ensures Before(SearchPathWithHome(t, root, names, Some(home)), root + [name], home + [name])
  {
    hide SearchPathWithHome, GameFolders, Distinct, IsDir, Grouped, Before;
    var x, y := root + [name], home + [name];
    PathStarts(t, root, names, Some(home));
    NothingBefore(x, y);
    if names != [] {
      var front := GameFolders(t, root, names[0], Some(home));
      var rest := SearchPathWithHome(t, root, names[1..], Some(home));
      RestIsDistinct(names);
      if name == names[0] {
        HomeFolderOutranks(t, root, home, name);
        NotOnPath(t, root, names[1..], Some(home), x);
        NotOnPath(t, root, names[1..], Some(home), y);
      } else {
        HomeOutranks(t, root, names[1..], home, name);
        NotInFolders(t, root, names[0], Some(home), x);
        NotInFolders(t, root, names[0], Some(home), y);
      }
      BeforeInConcat(front, rest, x, y);
    }
  }

  lemma NothingBefore(x: Path, y: Path)
    ensures Before([], x, y)
  {
  }

  lemma HomeFolderOutranks(t: Tree, root: Path, home: Path, name: string)
    requires home != root
    ensures Before(GameFolders(t, root, name, Some(home)), root + [name], home + [name])
  {
    hide IsDir;
    assert (root + [name])[..|root|] == root && (home + [name])[..|home|] == home;
  }

  /** Folders of a later name are searched before those of an earlier one. */
  lemma {:induction false} LaterNameOutranks(
    t: Tree, root: Path, names: seq<string>, home: Option<Path>, m: nat, n: nat, x: Path, y: Path)
    requires Distinct(names) && m < n < |names|
    requires x != [] && x[|x| - 1] == names[m] && y != [] && y[|y| - 1] == names[n]
    ensures Before(SearchPathWithHome(t, root, names, home), x, y)
  {
    hide SearchPathWithHome, GameFolders, IsDir, Grouped, Before, Distinct;
    var front, rest := GameFolders(t, root, names[0], home),
                       SearchPathWithHome(t, root, names[1..], home);
    PathStarts(t, root, names, home);
    RestIsDistinct(names);
    assert names[1..][n - 1] == names[n];
    NotInFolders(t, root, names[0], home, y);
    if m == 0 {
      NotOnPath(t, root, names[1..], home, x);
      BeforeOthers(front, rest, x, y);
    } else {
      assert names[1..][m - 1] == names[m];
      NotInFolders(t, root, names[0], home, x);
      LaterNameOutranks(t, root, names[1..], home, m - 1, n - 1, x, y);
      BeforeInConcat(front, rest, x, y);
    }
  }

  lemma NotInFolders(t: Tree, root: Path, name: string, home: Option<Path>, d: Path)
    requires d != [] && d[|d| - 1] != name
    ensures d !in GameFolders(t, root, name, home)
  {
    FoldersAreGrouped(t, root, name, home);
  }

  lemma NotOnPath(t: Tree, root: Path, names: seq<string>, home: Option<Path>, d: Path)
    requires d != [] && d[|d| - 1] !in names
    ensures d !in SearchPathWithHome(t, root, names, home)
  {
    PathNames(t, root, names, home);
  }

  lemma BeforeOthers(front: seq<Path>, rest: seq<Path>, x: Path, y: Path)
    requires x !in rest && y !in front
    ensures Before(front + rest, x, y)
  {
    BeforeInConcat(front, rest, x, y);
  }

  /** An expansion's folders are searched before both `main` folders. */
  lemma ExpansionOutranks(
    t: Tree, root: Path, target: TargetGame, home: Option<Path>, name: string, x: Path, y: Path)
    requires GameReads(target, name) && name != "main"
    requires Below(x, root, home, "main") && Below(y, root, home, name)
    ensures Before(SearchPathWithHome(t, root, SearchDirectories(target), home), x, y)
  {
    hide SearchPathWithHome, Before;
    GameNamesAreDistinct(target);
    LaterNameOutranks(t, root, SearchDirectories(target), home, 0, 1, x, y);
  }

  lemma GameNamesAreDistinct(target: TargetGame)
    ensures Distinct(SearchDirectories(target))
  {
    assert "main" != "mainta" && "main" != "maintt" by {
      assert |"main"| != |"mainta"|;
    }
  }

  /** On every path the program builds, a replacement of the copy the engine sees is what it sees next. */
  lemma ReplacementIsSeenOnBuiltPaths(
    t: Tree, root: Path, target: TargetGame, home: Option<Path>, holding: set<Path>,
    outdated: Path, default: Path)
    requires outdated != []
    requires var path := SearchPathWithHome(t, root, SearchDirectories(target), home);
             TopCopy(path, holding) == Some(Parent(outdated))
    ensures var path := SearchPathWithHome(t, root, SearchDirectories(target), home);
            var chosen := EffectivePackageInstallDirectory(outdated, default, path);
            TopCopy(path, holding + {chosen}) == Some(chosen)
  {
    GameNamesAreDistinct(target);
    BuiltPathIsGrouped(t, root, SearchDirectories(target), home);
    GroupedReplacementIsSeen(
      SearchPathWithHome(t, root, SearchDirectories(target), home), holding, outdated, default);
  }
}
