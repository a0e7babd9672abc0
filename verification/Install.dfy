/** Telling a game installation from what is in a folder. */
module Installations {
  import opened Common
  import opened Disks

  /** Left in a copy until it is complete and validated. */
  const INCOMPLETE_COPY_MARKER: Path := [".reveille-copy-incomplete"]

  datatype Product = AlliedAssault | Spearhead | Breakthrough {
    function DataDirectory(): Path {
      match this
      case AlliedAssault => ["main"]
      case Spearhead => ["mainta"]
      case Breakthrough => ["maintt"]
    }
  }

  const PRODUCTS: seq<Product> := [AlliedAssault, Spearhead, Breakthrough]

  const CLIENT_BINARIES: seq<string> :=
    ["mohaa.exe", "mohaas.exe", "mohaab.exe", "moh_spearhead.exe", "moh_breakthrough.exe",
     "openmohaa.exe", "openmohaa"]

  /** The published version of a client binary, by its content. */
  type Versions = Bytes -> Option<string>

  /** A client binary, identified by its content in place of a digest of it. */
  datatype Fingerprint = Fingerprint(name: string, content: Bytes, knownVersion: Option<string>)

  datatype Identification = KnownBinaries | UnknownBinaries | DataDirectoriesOnly

  datatype Installation = Installation(
    products: seq<Product>,
    playable: seq<Product>,
    binaries: seq<Fingerprint>,
    identification: Identification)

  datatype InstallError = NotDirectory | IncompleteCopy | NoDataDirectories | Unreadable

  function Present(folder: Tree, products: seq<Product>): seq<Product> {
    if products == [] then []
    else (if IsDir(folder, products[0].DataDirectory()) then [products[0]] else [])
         + Present(folder, products[1..])
  }

  /** An expansion is only playable over the base game. */
  function Playable(present: seq<Product>): seq<Product> {
    if AlliedAssault in present then present else []
  }

  function Binaries(known: Versions, folder: Tree, names: seq<string>): seq<Fingerprint> {
    if names == [] then []
    else
      (if IsFile(folder, [names[0]])
       then [Fingerprint(names[0], folder[[names[0]]].content, known(folder[[names[0]]].content))]
       else [])
      + Binaries(known, folder, names[1..])
  }

  function Evidence(binaries: seq<Fingerprint>): Identification {
    if binaries == [] then DataDirectoriesOnly
    else if exists i :: 0 <= i < |binaries| && binaries[i].knownVersion.Some? then KnownBinaries
    else UnknownBinaries
  }

  /** Identify a folder, given everything at and below it. */
  function Identify(known: Versions, folder: Tree): Result<Installation, InstallError> {
    if !IsDir(folder, []) then Failure(NotDirectory)
    else if IsFile(folder, INCOMPLETE_COPY_MARKER) then Failure(IncompleteCopy)
    else
      var products := Present(folder, PRODUCTS);
      if products == [] then Failure(NoDataDirectories)
      else
        var binaries := Binaries(known, folder, CLIENT_BINARIES);
        Success(Installation(products, Playable(products), binaries, Evidence(binaries)))
  }

  /** What `Identify` needs of a folder it accepts, and why it rejects any other. */
  lemma AcceptedFolder(known: Versions, folder: Tree)
    ensures Identify(known, folder).Success?
            <==> && IsDir(folder, []) && !IsFile(folder, [".reveille-copy-incomplete"])
                 && (IsDir(folder, ["main"]) || IsDir(folder, ["mainta"]) || IsDir(folder, ["maintt"]))
    ensures Identify(known, folder) == Failure(NotDirectory) <==> !IsDir(folder, [])
    ensures Identify(known, folder) == Failure(IncompleteCopy)
            <==> IsDir(folder, []) && IsFile(folder, [".reveille-copy-incomplete"])
  {
    PresentProducts(folder);
    hide Present;
  }

  /** The products of a folder, in the order of their release. */
  lemma PresentProducts(folder: Tree)
    ensures Present(folder, PRODUCTS)
            == (if IsDir(folder, ["main"]) then [AlliedAssault] else [])
               + (if IsDir(folder, ["mainta"]) then [Spearhead] else [])
               + (if IsDir(folder, ["maintt"]) then [Breakthrough] else [])
  {
    assert PRODUCTS[1..] == [Spearhead, Breakthrough];
    assert [Spearhead, Breakthrough][1..] == [Breakthrough];
    assert [Breakthrough][1..] == [];
    assert Present(folder, [Breakthrough])
        == if IsDir(folder, ["maintt"]) then [Breakthrough] else [];
    assert Present(folder, [Spearhead, Breakthrough])
        == (if IsDir(folder, ["mainta"]) then [Spearhead] else []) + Present(folder, [Breakthrough]);
  }

  lemma {:induction false} BinariesMean(known: Versions, folder: Tree, names: seq<string>)
    ensures forall b :: b in Binaries(known, folder, names) <==>
              && b.name in names && IsFile(folder, [b.name])
              && b == Fingerprint(b.name, folder[[b.name]].content, known(folder[[b.name]].content))
  {
    if names != [] {
      BinariesMean(known, folder, names[1..]);
      assert names == [names[0]] + names[1..];
    }
  }

  /** What an identified folder is said to hold is what is in it. */
  lemma InstallationMeans(known: Versions, folder: Tree)
    requires Identify(known, folder).Success?
    ensures var found := Identify(known, folder).value;
            && found.products
               == (if IsDir(folder, ["main"]) then [AlliedAssault] else [])
                  + (if IsDir(folder, ["mainta"]) then [Spearhead] else [])
                  + (if IsDir(folder, ["maintt"]) then [Breakthrough] else [])
            && found.playable == (if IsDir(folder, ["main"]) then found.products else [])
            && (forall b :: b in found.binaries <==>
                  && b.name in CLIENT_BINARIES && IsFile(folder, [b.name])
                  && b == Fingerprint(b.name, folder[[b.name]].content,
                                      known(folder[[b.name]].content)))
            && (found.identification.DataDirectoriesOnly? <==>
                  forall name :: name in CLIENT_BINARIES ==> !IsFile(folder, [name]))
            && (found.identification.KnownBinaries? <==>
                  exists b :: b in found.binaries && b.knownVersion.Some?)
  {
    PresentProducts(folder);
    BinariesMean(known, folder, CLIENT_BINARIES);
    hide Present, Binaries, CLIENT_BINARIES;
    var found := Identify(known, folder).value;
    forall name | name in CLIENT_BINARIES && IsFile(folder, [name])
      ensures Fingerprint(name, folder[[name]].content, known(folder[[name]].content)) in found.binaries
    {
    }
    assert found.binaries != [] ==> found.binaries[0] in found.binaries;
    assert forall i :: 0 <= i < |found.binaries| ==> found.binaries[i] in found.binaries;
  }

  /** Reading a binary may fail; otherwise the answer is a fact about the folder. */
  method IdentifyAt(disk: Disk, known: Versions, root: Path)
    returns (r: Result<Installation, InstallError>)
    ensures r == Identify(known, Subtree(disk.nodes, root)) || r == Failure(Unreadable)
    ensures disk.steady ==> r == Identify(known, Subtree(disk.nodes, root))
  {
    var fault := disk.Fault();
    r := if fault then Failure(Unreadable) else Identify(known, Subtree(disk.nodes, root));
  }
}
