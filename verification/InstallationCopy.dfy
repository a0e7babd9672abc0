/** Copying an installation: everything appears at the destination, or nothing does. */
module InstallationCopies {
  import opened Common
  import opened Disks
  import opened Installations
  import opened Text

  const COPY_BUFFER_SIZE: nat := 1048576

  const U64_MAX: nat := 0xFFFF_FFFF_FFFF_FFFF

  /** Candidate names for the staging folder. */
  const STAGING_NAMES: nat := 64

  datatype CopyPlan = CopyPlan(bytes: nat, files: nat)

  datatype CopyProgress = CopyProgress(copiedBytes: nat, copiedFiles: nat, plan: CopyPlan)

  datatype InstallationCopy = InstallationCopy(installation: Installation, source: CopyPlan)

  datatype CopyError =
    | SourceRejected(error: InstallError)
    | DestinationExists
    | UnsafeDestination
    | DestinationInsideSource
    | Walk
    | SourceTooLarge
    | Filesystem
    | Space
    | InsufficientSpace(required: nat, available: nat)
    | NoStagingDirectory
    | Cancelled
    | SourceChanged
    | InvalidCopy(error: InstallError)
    | IdentityChanged

  /**
   Why a copy whose source stands still can stop once the checks have passed: never because of what
   was copied, and for its size only when that is too large.
   */
  predicate Stopped(error: CopyError, tooLarge: bool) {
    || error.Walk? || error.Filesystem? || error.Cancelled? || error == InvalidCopy(Unreadable)
    || (tooLarge && error.SourceTooLarge?)
  }

  /** The two callbacks of a copy. */
  class Caller {
    var reports: seq<CopyProgress>
    /** How often the caller was asked whether to stop, and whether it has said so. */
    var asked: nat
    var stopped: bool
    /** Never cancels. */
    const patient: bool

    constructor (patient: bool)
      ensures Fresh() && this.patient == patient
    {
      this.patient, reports, asked, stopped := patient, [], 0, false;
    }

    ghost predicate Fresh()
      reads this
    {
      reports == [] && asked == 0 && !stopped
    }

    /** Asked before every report but the first, and not stopped. */
    ghost predicate Attended()
      reads this
    {
      |reports| <= asked + 1 && !stopped
    }

    method Cancelled() returns (cancelled: bool)
      modifies this`asked, this`stopped
      ensures asked == old(asked) + 1 && stopped == (old(stopped) || cancelled)
      ensures patient ==> !cancelled
    {
      cancelled := *;
      cancelled := cancelled && !patient;
      asked, stopped := asked + 1, stopped || cancelled;
    }

    method Progress(copied: CopyProgress)
      modifies this`reports
      ensures reports == old(reports) + [copied]
    {
      reports := reports + [copied];
    }
  }

  // ----- The source tree -----

  /** A walk visits everything in a folder once, each folder before what is in it. */
  ghost predicate IsWalk(folder: Tree, walk: seq<Path>) {
    && (forall rel :: rel in walk <==> rel in folder)
    && Distinct(walk)
    && forall i :: 0 <= i < |walk| && walk[i] != [] ==> Parent(walk[i]) in walk[..i]
  }

  function Length(folder: Tree, rel: Path): nat {
    if IsFile(folder, rel) then |folder[rel].content| else 0
  }

  function TotalBytes(folder: Tree, walk: seq<Path>): nat {
    if walk == [] then 0
    else TotalBytes(folder, walk[..|walk| - 1]) + Length(folder, walk[|walk| - 1])
  }

  function TotalFiles(folder: Tree, walk: seq<Path>): nat {
    if walk == [] then 0
    else TotalFiles(folder, walk[..|walk| - 1]) + if IsFile(folder, walk[|walk| - 1]) then 1 else 0
  }

  /** Each file counts for its length and for one file, and nothing else counts. */
  lemma {:induction false} TotalsWithout(folder: Tree, walk: seq<Path>, k: nat)
    requires k < |walk|
    ensures TotalBytes(folder, walk)
            == TotalBytes(folder, walk[..k] + walk[k + 1..])
               + if IsFile(folder, walk[k]) then |folder[walk[k]].content| else 0
    ensures TotalFiles(folder, walk)
            == TotalFiles(folder, walk[..k] + walk[k + 1..])
               + if IsFile(folder, walk[k]) then 1 else 0
  {
    var last := |walk| - 1;
    var front := walk[..last];
    if k == last {
      assert front + walk[k + 1..] == front;
    } else {
      TotalsWithout(folder, front, k);
      var less := front[..k] + front[k + 1..];
      assert walk[..k] + walk[k + 1..] == less + [walk[last]];
      TotalsOneMore(folder, less, walk[last]);
    }
  }

  lemma TotalsOneMore(folder: Tree, walk: seq<Path>, rel: Path)
    ensures TotalBytes(folder, walk + [rel]) == TotalBytes(folder, walk) + Length(folder, rel)
    ensures TotalFiles(folder, walk + [rel])
            == TotalFiles(folder, walk) + if IsFile(folder, rel) then 1 else 0
  {
    assert (walk + [rel])[..|walk|] == walk;
  }

  ghost predicate SameElements(xs: seq<Path>, ys: seq<Path>) {
    forall x :: x in xs <==> x in ys
  }

  lemma SameRest(walk: seq<Path>, other: seq<Path>, k: nat)
    requires Distinct(walk) && Distinct(other) && SameElements(walk, other)
    requires |walk| > 0 && k < |other| && other[k] == walk[|walk| - 1]
    ensures Distinct(other[..k] + other[k + 1..])
    ensures SameElements(walk[..|walk| - 1], other[..k] + other[k + 1..])
  {
    var last, rest := |walk| - 1, other[..k] + other[k + 1..];
    assert forall j :: 0 <= j < |rest| ==> rest[j] == other[if j < k then j else j + 1];
    forall rel ensures rel in walk[..last] <==> rel in rest {
      if rel in walk[..last] {
        assert rel in walk;
        var j :| 0 <= j < |other| && other[j] == rel;
        assert rest[if j < k then j else j - 1] == rel;
      }
      if rel in rest {
        var j :| 0 <= j < |rest| && rest[j] == rel;
        assert other[if j < k then j else j + 1] in other;
      }
    }
  }

  /** What is measured does not depend on the order of the walk. */
  lemma {:induction false} TotalsIgnoreOrder(folder: Tree, walk: seq<Path>, other: seq<Path>)
    requires Distinct(walk) && Distinct(other) && SameElements(walk, other)
    ensures TotalBytes(folder, walk) == TotalBytes(folder, other)
    ensures TotalFiles(folder, walk) == TotalFiles(folder, other)
    decreases |walk|
  {
    if walk == [] {
      assert forall i :: 0 <= i < |other| ==> other[i] in other;
    } else {
      var last := |walk| - 1;
      assert walk[last] in other;
      var k :| 0 <= k < |other| && other[k] == walk[last];
      var rest := other[..k] + other[k + 1..];
      SameRest(walk, other, k);
      TotalsIgnoreOrder(folder, walk[..last], rest);
      TotalsWithout(folder, other, k);
    }
  }

  lemma {:induction false} TotalsGrow(folder: Tree, walk: seq<Path>, n: nat)
    requires n <= |walk|
    ensures TotalBytes(folder, walk[..n]) <= TotalBytes(folder, walk)
    ensures TotalFiles(folder, walk[..n]) <= TotalFiles(folder, walk)
  {
    if n < |walk| {
      TotalsGrow(folder, walk[..|walk| - 1], n);
      assert walk[..|walk| - 1][..n] == walk[..n];
    } else {
      assert walk[..n] == walk;
    }
  }

  lemma NothingVisited(folder: Tree, walk: seq<Path>)
    ensures TotalBytes(folder, walk[..0]) == TotalFiles(folder, walk[..0]) == 0
  {
  }

  method MeasureInstallation(disk: Disk, source: Path, walk: seq<Path>)
    returns (plan: Result<CopyPlan, CopyError>)
    requires IsWalk(Subtree(disk.nodes, source), walk)
    ensures var folder := Subtree(disk.nodes, source);
            && (plan.Failure? ==>
                  && !plan.error.Cancelled?
                  && Stopped(plan.error, TotalBytes(folder, walk) > U64_MAX
                                         || TotalFiles(folder, walk) > U64_MAX))
            && (plan.Success? ==>
                  && plan.value == CopyPlan(TotalBytes(folder, walk), TotalFiles(folder, walk))
                  && plan.value.bytes <= U64_MAX && plan.value.files <= U64_MAX)
            && (disk.steady ==>
                  (plan.Success? <==> TotalBytes(folder, walk) <= U64_MAX
                                      && TotalFiles(folder, walk) <= U64_MAX))
  {
    hide Subtree, TotalBytes, TotalFiles, Distinct;
    ghost var folder := Subtree(disk.nodes, source);
    NothingVisited(folder, walk);
    var bytes, files := 0, 0;
    for i := 0 to |walk|
      invariant bytes == TotalBytes(folder, walk[..i]) <= U64_MAX
      invariant files == TotalFiles(folder, walk[..i]) <= U64_MAX
    {
      var fault := disk.Fault();
      if fault {
        return Failure(Walk);
      }
      assert walk[i] in walk;
      SubtreeAt(disk.nodes, source, walk[i]);
      TotalsNext(folder, walk, i);
      var path := source + walk[i];
      if disk.nodes[path].File? {
        var length := |disk.nodes[path].content|;
        if bytes + length > U64_MAX {
          return Failure(SourceTooLarge);
        }
        bytes := bytes + length;
        if files + 1 > U64_MAX {
          return Failure(SourceTooLarge);
        }
        files := files + 1;
      }
    }
    assert walk[..|walk|] == walk;
    plan := Success(CopyPlan(bytes, files));
  }

  // ----- Where a copy may go -----

  /** The longest prefix of a path that exists; the root always does. */
  function NearestExisting(t: Tree, p: Path): Path {
    if p == [] || p in t then p else NearestExisting(t, Parent(p))
  }

  lemma {:induction false} NearestIsNearest(t: Tree, p: Path, q: Path)
    requires q in t && q <= p
    ensures q <= NearestExisting(t, p)
  {
    if p != [] && p !in t {
      assert q == p[..|q|] && p == p[..|p|];
      NearestIsNearest(t, Parent(p), q);
    }
  }

  lemma {:induction false} NearestIsPrefix(t: Tree, p: Path)
    ensures NearestExisting(t, p) <= p
  {
    if p != [] && p !in t {
      NearestIsPrefix(t, Parent(p));
    }
  }

  method ValidateDestination(disk: Disk, source: Path, destination: Path)
    returns (error: Option<CopyError>)
    requires destination != [] && source in disk.nodes
    ensures error.None? ==> !(source <= Parent(destination)) && ".." !in destination
    ensures error == Some(UnsafeDestination) ==> ".." in destination
    ensures error == Some(DestinationInsideSource) ==> source <= Parent(destination)
    ensures error.Some? ==>
              error.value.UnsafeDestination? || error.value.DestinationInsideSource?
              || error.value.Filesystem?
    ensures disk.steady ==>
              (error.None? <==> !(source <= Parent(destination)) && ".." !in destination)
  {
    if ".." in destination {
      return Some(UnsafeDestination);
    }
    var existing := NearestExisting(disk.nodes, Parent(destination));
    var fault := disk.Fault();
    if fault {
      return Some(Filesystem);
    }
    NearestIsPrefix(disk.nodes, Parent(destination));
    if source <= existing {
      return Some(DestinationInsideSource);
    }
    if source <= Parent(destination) {
      NearestIsNearest(disk.nodes, Parent(destination), source);
    }
    error := None;
  }

  function StagingName(process: nat, suffix: nat): string {
    ".reveille-copy-" + Padded(process, 1) + "-" + Padded(suffix, 1) + ".partial"
  }

  predicate StagingFree(t: Tree, parent: Path, process: nat) {
    exists suffix :: 0 <= suffix < 64 && Staging(parent, process, suffix) !in t
  }

  function Staging(parent: Path, process: nat, suffix: nat): Path {
    parent + [StagingName(process, suffix)]
  }

  /** The names tried are all different. */
  lemma StagingNamesDiffer(process: nat, suffix: nat, other: nat)
    requires StagingName(process, suffix) == StagingName(process, other)
    ensures suffix == other
  {
    hide Padded;
    var front := ".reveille-copy-" + Padded(process, 1) + "-";
    var s, t := Padded(suffix, 1), Padded(other, 1);
    assert front + s + ".partial" == front + t + ".partial";
    assert (front + s + ".partial")[|front|..] == s + ".partial";
    assert (front + t + ".partial")[|front|..] == t + ".partial";
    assert (s + ".partial")[..|s|] == s && (t + ".partial")[..|t|] == t;
    PaddedDiffers(suffix, other, 1);
  }

  method AllocateStaging(disk: Disk, parent: Path, process: nat)
    returns (staging: Result<Path, CopyError>)
    requires disk.Valid() && IsDir(disk.nodes, parent)
    modifies disk
    ensures disk.Valid()
    ensures staging.Success? ==>
              && staging.value != [] && Parent(staging.value) == parent
              && staging.value !in old(disk.nodes)
              && disk.nodes == old(disk.nodes)[staging.value := Dir]
              && disk.seen == old(disk.seen) + {disk.nodes}
              && StagingFree(old(disk.nodes), parent, process)
    ensures staging == Failure(NoStagingDirectory) ==> !StagingFree(disk.nodes, parent, process)
    ensures staging.Failure? ==>
              && disk.nodes == old(disk.nodes) && disk.seen == old(disk.seen)
              && (staging.error.NoStagingDirectory? || staging.error.Filesystem?)
    ensures disk.steady ==> (staging.Success? <==> StagingFree(old(disk.nodes), parent, process))
  {
    hide WellFormed, StagingName;
    for suffix := 0 to STAGING_NAMES
      invariant disk.Valid() && disk.nodes == old(disk.nodes) && disk.seen == old(disk.seen)
      invariant forall k :: 0 <= k < suffix ==> Staging(parent, process, k) in disk.nodes
    {
      var candidate := Staging(parent, process, suffix);
      assert Parent(candidate) == parent;
      var error := disk.CreateDir(candidate);
      if error.None? {
        return Success(candidate);
      }
      if error.value != AlreadyExists {
        return Failure(Filesystem);
      }
    }
    staging := Failure(NoStagingDirectory);
  }

  // ----- Copying one file -----

  /** `after` only adds a file at `target`, which did not exist. */
  ghost predicate Creates(after: Tree, before: Tree, target: Path) {
    after == before || (target !in before && Writes(after, before, target))
  }

  ghost predicate OnlyCreates(after: set<Tree>, earlier: set<Tree>, before: Tree, target: Path) {
    forall t :: t in after ==> t in earlier || Creates(t, before, target)
  }

  /** Reports grow from nothing, step by step, and the last one says what has been copied. */
  ghost predicate Climbs(reports: seq<CopyProgress>, copied: CopyProgress) {
    && reports != [] && reports[|reports| - 1] == copied
    && reports[0] == CopyProgress(0, 0, copied.plan)
    && forall i, j :: 0 <= i < j < |reports| ==>
         UpTo(reports[i], reports[j]) && (j == i + 1 ==> OneStep(reports[i], reports[j]))
  }

  /** At most one buffer of bytes, or one file, is copied between two reports. */
  predicate OneStep(earlier: CopyProgress, later: CopyProgress) {
    || (later.copiedFiles == earlier.copiedFiles && later.copiedBytes <= earlier.copiedBytes + 1024 * 1024)
    || (later.copiedFiles == earlier.copiedFiles + 1 && later.copiedBytes == earlier.copiedBytes)
  }

  predicate UpTo(earlier: CopyProgress, later: CopyProgress) {
    && earlier.plan == later.plan
    && earlier.copiedBytes <= later.copiedBytes && earlier.copiedFiles <= later.copiedFiles
  }

  /** Copy a file in chunks to a path that must not exist, counting and reporting every chunk. */
  method CopyFile(disk: Disk, caller: Caller, source: Path, target: Path, copied: CopyProgress)
    returns (outcome: Result<CopyProgress, CopyError>)
    requires disk.Valid() && IsFile(disk.nodes, source)
    requires Climbs(caller.reports, copied) && caller.Attended()
    modifies disk, caller
    ensures disk.Valid()
    ensures if outcome == Failure(Cancelled) then caller.stopped else caller.Attended()
    ensures Creates(disk.nodes, old(disk.nodes), target)
    ensures OnlyCreates(disk.seen, old(disk.seen), old(disk.nodes), target)
    ensures outcome.Failure? ==>
              Stopped(outcome.error,
                      copied.copiedBytes + |old(disk.nodes)[source].content| > U64_MAX)
    ensures outcome.Success? ==>
              && outcome.value == Counted(copied, old(disk.nodes)[source])
              && disk.nodes == old(disk.nodes)[target := old(disk.nodes)[source]]
              && CanCreate(old(disk.nodes), target)
              && Climbs(caller.reports, outcome.value)
    ensures disk.steady && caller.patient
            && copied.copiedBytes + |old(disk.nodes)[source].content| <= U64_MAX ==>
              (outcome.Success? <==> CanCreate(old(disk.nodes), target))
  {
    hide WellFormed, Writes, Creates, OnlyCreates, Climbs, IsDir, Parent, UpTo, OneStep, CanCreate;
    var fault := disk.Fault();
    if fault {
      NothingWritten(disk.seen, disk.nodes, target);
      return Failure(Filesystem);
    }
    ghost var before, earlier := disk.nodes, disk.seen;
    var content := disk.nodes[source].content;
    var created := disk.CreateNew(target);
    FileCreated(disk.seen, earlier, disk.nodes, before, target);
    if !created {
      return Failure(Filesystem);
    }
    var offset, progress := 0, copied;
    while true
      invariant disk.Valid() && IsFile(disk.nodes, source)
      invariant offset <= |content| && disk.nodes == before[target := File(content[..offset])]
      invariant OnlyCreates(disk.seen, earlier, before, target)
      invariant Creates(disk.nodes, before, target)
      invariant progress == copied.(copiedBytes := copied.copiedBytes + offset)
      invariant Climbs(caller.reports, progress) && caller.Attended()
      decreases |content| - offset
    {
      var cancelled := caller.Cancelled();
      if cancelled {
        return Failure(Cancelled);
      }
      var chunk := disk.Read(source, offset, COPY_BUFFER_SIZE);
      if chunk.None? {
        return Failure(Filesystem);
      }
      if chunk.value == [] {
        break;
      }
      ghost var middle, seen := disk.nodes, disk.seen;
      var written := disk.AppendTo(target, chunk.value);
      WritesMore(disk.seen, disk.nodes, seen, middle, earlier, before, target);
      if !written {
        return Failure(Filesystem);
      }
      var next := offset + |chunk.value|;
      ChunkAdded(before, target, content, offset, next);
      if progress.copiedBytes + |chunk.value| > U64_MAX {
        return Failure(SourceTooLarge);
      }
      ghost var reported := progress;
      offset := next;
      progress := progress.(copiedBytes := progress.copiedBytes + |chunk.value|);
      ChunkIsStep(reported, |chunk.value|);
      ClimbsOn(caller.reports, reported, progress);
      caller.Progress(progress);
    }
    assert content[..offset] == content;
    fault := disk.Fault();
    if fault {
      return Failure(Filesystem);
    }
    ghost var reported := progress;
    progress := progress.(copiedFiles := progress.copiedFiles + 1);
    FileIsStep(reported);
    ClimbsOn(caller.reports, reported, progress);
    caller.Progress(progress);
    outcome := Success(progress);
  }

  lemma ChunkAdded(before: Tree, target: Path, content: Bytes, offset: nat, next: nat)
    requires offset <= next <= |content|
    ensures before[target := File(content[..offset])]
                  [target := File(content[..offset] + content[offset..next])]
            == before[target := File(content[..next])]
  {
    assert content[..offset] + content[offset..next] == content[..next];
  }

  function Counted(copied: CopyProgress, node: Node): CopyProgress {
    if node.Dir? then copied
    else copied.(copiedBytes := copied.copiedBytes + |node.content|,
                 copiedFiles := copied.copiedFiles + 1)
  }

  lemma ChunkIsStep(copied: CopyProgress, n: nat)
    requires n <= COPY_BUFFER_SIZE
    ensures var next := copied.(copiedBytes := copied.copiedBytes + n);
            UpTo(copied, next) && OneStep(copied, next)
  {
  }

  lemma FileIsStep(copied: CopyProgress)
    ensures var next := copied.(copiedFiles := copied.copiedFiles + 1);
            UpTo(copied, next) && OneStep(copied, next)
  {
  }

  lemma ClimbsOn(reports: seq<CopyProgress>, copied: CopyProgress, next: CopyProgress)
    requires Climbs(reports, copied) && UpTo(copied, next) && OneStep(copied, next)
    ensures Climbs(reports + [next], next)
  {
  }

  lemma NothingWritten(seen: set<Tree>, before: Tree, target: Path)
    ensures OnlyCreates(seen, seen, before, target) && Creates(before, before, target)
  {
  }

  lemma FileCreated(seen: set<Tree>, earlier: set<Tree>, after: Tree, before: Tree, target: Path)
    requires seen == earlier + {after}
    requires after == before || (target !in before && after == before[target := File([])])
    ensures OnlyCreates(seen, earlier, before, target) && Creates(after, before, target)
  {
  }

  lemma WritesMore(
    seen: set<Tree>, after: Tree, middleSeen: set<Tree>, middle: Tree, earlier: set<Tree>,
    before: Tree, target: Path)
    requires OnlyCreates(middleSeen, earlier, before, target)
    requires target !in before && exists content :: middle == before[target := File(content)]
    requires forall t :: t in seen ==> t in middleSeen || Writes(t, middle, target)
    requires Writes(after, middle, target)
    ensures OnlyCreates(seen, earlier, before, target) && Creates(after, before, target)
  {
    assert Writes(middle, before, target);
    forall t | Writes(t, middle, target) ensures Writes(t, before, target) {
      WritesTwice(t, middle, before, target);
    }
  }

  // ----- Copying the tree -----

  /** What has been copied after visiting `done`: the root folder is there from the start. */
  function Copied(folder: Tree, done: seq<Path>): Tree {
    map rel | rel in folder && (rel == [] || rel in done) :: folder[rel]
  }

  function Marked(folder: Tree, content: Bytes): Tree {
    folder[INCOMPLETE_COPY_MARKER := File(content)]
  }

  /**
   The disk while a copy is under way at `p`: nothing else has changed, and if `identify` would
   accept what is there, it is the whole of `folder`.
   */
  ghost predicate Partial(t: Tree, base: Tree, p: Path, known: Versions, folder: Tree) {
    && Outside(t, p) == base
    && (Identify(known, Subtree(t, p)).Success? ==> Subtree(t, p) == folder)
  }

  ghost predicate AllPartial(
    after: set<Tree>, earlier: set<Tree>, base: Tree, p: Path, known: Versions, folder: Tree)
  {
    forall t :: t in after ==> t in earlier || Partial(t, base, p, known, folder)
  }

  lemma MarkedIsPartial(
    t: Tree, base: Tree, p: Path, known: Versions, folder: Tree, partial: Tree, content: Bytes)
    requires Outside(t, p) == base && Subtree(t, p) == Marked(partial, content)
    ensures Partial(t, base, p, known, folder)
  {
  }

  lemma CopiedNext(folder: Tree, walk: seq<Path>, i: nat)
    requires i < |walk| && walk[i] in folder
    ensures Copied(folder, walk[..i + 1])
            == Copied(folder, walk[..i])[walk[i] := folder[walk[i]]]
    ensures walk[i] == [] ==> Copied(folder, walk[..i + 1]) == Copied(folder, walk[..i])
  {
    assert walk[..i + 1] == walk[..i] + [walk[i]];
  }

  lemma CopiedAll(folder: Tree, walk: seq<Path>)
    requires IsWalk(folder, walk)
    ensures Copied(folder, walk) == folder
    ensures INCOMPLETE_COPY_MARKER in folder ==> INCOMPLETE_COPY_MARKER in walk
  {
  }

  /** Adding an entry that did not exist keeps the marker in place. */
  lemma PutMarked(
    t: Tree, base: Tree, p: Path, partial: Tree, content: Bytes, rel: Path, node: Node)
    requires Outside(t, p) == base && Subtree(t, p) == Marked(partial, content)
    requires p + rel !in t
    ensures var after := t[p + rel := node];
            && Outside(after, p) == base
            && Subtree(after, p) == Marked(partial[rel := node], content)
            && rel !in partial && rel != INCOMPLETE_COPY_MARKER
  {
    hide Subtree, Outside;
    PutInside(t, p, rel, node);
    SubtreeAt(t, p, rel);
  }

  /** A file created below a marked copy leaves it partial. */
  lemma CreatesIsPartial(
    after: Tree, t: Tree, base: Tree, p: Path, known: Versions, folder: Tree, partial: Tree,
    content: Bytes, rel: Path)
    requires Outside(t, p) == base && Subtree(t, p) == Marked(partial, content)
    requires Creates(after, t, p + rel)
    ensures Partial(after, base, p, known, folder)
  {
    hide Subtree, Outside, Identify, Partial, Marked;
    MarkedIsPartial(t, base, p, known, folder, partial, content);
    if after != t {
      PutMarked(t, base, p, partial, content, rel, after[p + rel]);
      MarkedIsPartial(after, base, p, known, folder, partial[rel := after[p + rel]], content);
    }
  }

  lemma CreatesArePartial(
    after: set<Tree>, earlier: set<Tree>, t: Tree, base: Tree, p: Path, known: Versions,
    folder: Tree, partial: Tree, content: Bytes, rel: Path)
    requires Outside(t, p) == base && Subtree(t, p) == Marked(partial, content)
    requires OnlyCreates(after, earlier, t, p + rel)
    ensures AllPartial(after, earlier, base, p, known, folder)
  {
    hide Subtree, Outside, Partial, Marked, Creates;
    forall s | Creates(s, t, p + rel) ensures Partial(s, base, p, known, folder) {
      CreatesIsPartial(s, t, base, p, known, folder, partial, content, rel);
    }
  }

  /** An entry of the source is read unchanged while a copy is under way apart from it. */
  lemma SourceEntry(t: Tree, base: Tree, source: Path, staging: Path, folder: Tree, rel: Path)
    requires Apart(staging, source) && Outside(t, staging) == base
    requires Subtree(base, source) == folder && rel in folder
    ensures source + rel in t && t[source + rel] == folder[rel]
  {
    hide Subtree, Outside;
    SubtreeApart(t, staging, source);
    SubtreeAt(t, source, rel);
  }

  lemma TargetEntry(t: Tree, staging: Path, partial: Tree, marker: Bytes, rel: Path)
    requires Subtree(t, staging) == Marked(partial, marker) && rel != []
    ensures staging + rel in t <==> rel in partial || rel == INCOMPLETE_COPY_MARKER
    ensures CanCreate(t, staging + rel)
            <==> && rel !in partial && rel != INCOMPLETE_COPY_MARKER
                 && IsDir(Marked(partial, marker), Parent(rel))
  {
    hide Subtree, Outside;
    SubtreeAt(t, staging, rel);
    SubtreeAt(t, staging, Parent(rel));
    assert Parent(staging + rel) == staging + Parent(rel);
  }

  /** Copy one entry of the source to the same place in the staging folder. */
  method CopyEntry(
    disk: Disk, caller: Caller, source: Path, staging: Path, rel: Path, copied: CopyProgress,
    ghost known: Versions, ghost base: Tree, ghost folder: Tree, ghost partial: Tree,
    ghost marker: Bytes)
    returns (outcome: Result<CopyProgress, CopyError>)
    requires disk.Valid() && staging != [] && Apart(staging, source)
    requires Outside(disk.nodes, staging) == base
    requires Subtree(disk.nodes, staging) == Marked(partial, marker)
    requires Subtree(base, source) == folder && rel in folder && rel != []
    requires IsDir(disk.nodes, staging)
    requires Climbs(caller.reports, copied) && caller.Attended()
    modifies disk, caller
    ensures disk.Valid()
    ensures if outcome == Failure(Cancelled) then caller.stopped else caller.Attended()
    ensures AllPartial(disk.seen, old(disk.seen), base, staging, known, folder)
    ensures IsDir(disk.nodes, staging) && Partial(disk.nodes, base, staging, known, folder)
    ensures outcome.Failure? ==>
              Stopped(outcome.error, copied.copiedBytes + Length(folder, rel) > U64_MAX)
    ensures outcome.Success? ==>
              && Outside(disk.nodes, staging) == base
              && Subtree(disk.nodes, staging) == Marked(partial[rel := folder[rel]], marker)
              && rel !in partial && rel != INCOMPLETE_COPY_MARKER
              && outcome.value == Counted(copied, folder[rel])
              && Climbs(caller.reports, outcome.value)
    ensures disk.steady && caller.patient && copied.copiedBytes + Length(folder, rel) <= U64_MAX ==>
              (outcome.Success? <==> && rel !in partial && rel != INCOMPLETE_COPY_MARKER
                                     && IsDir(Marked(partial, marker), Parent(rel)))
  {
    hide WellFormed, Outside, Subtree, Identify, Partial, AllPartial, Marked, Creates;
    hide OnlyCreates, Climbs;
    ghost var before, earlier := disk.nodes, disk.seen;
    var path, target := source + rel, staging + rel;
    SourceEntry(before, base, source, staging, folder, rel);
    TargetEntry(before, staging, partial, marker, rel);
    MarkedIsPartial(before, base, staging, known, folder, partial, marker);
    NothingPartial(earlier, base, staging, known, folder);
    if disk.nodes[path].Dir? {
      var error := disk.CreateDir(target);
      if error.Some? {
        return Failure(Filesystem);
      }
      PutMarked(before, base, staging, partial, marker, rel, Dir);
      MarkedIsPartial(disk.nodes, base, staging, known, folder, partial[rel := Dir], marker);
      OneMorePartial(disk.seen, earlier, disk.nodes, base, staging, known, folder);
      return Success(copied);
    }
    outcome := CopyFile(disk, caller, path, target, copied);
    CreatesKeeps(disk.nodes, before, target, staging);
    CreatesIsPartial(disk.nodes, before, base, staging, known, folder, partial, marker, rel);
    CreatesArePartial(
      disk.seen, earlier, before, base, staging, known, folder, partial, marker, rel);
    if outcome.Success? {
      PutMarked(before, base, staging, partial, marker, rel, folder[rel]);
    }
  }

  lemma CreatesKeeps(after: Tree, before: Tree, target: Path, q: Path)
    requires Creates(after, before, target) && IsDir(before, q)
    ensures IsDir(after, q)
  {
  }

  lemma NothingPartial(seen: set<Tree>, base: Tree, p: Path, known: Versions, folder: Tree)
    ensures AllPartial(seen, seen, base, p, known, folder)
  {
  }

  lemma OneMorePartial(
    seen: set<Tree>, earlier: set<Tree>, t: Tree, base: Tree, p: Path, known: Versions, folder: Tree)
    requires seen == earlier + {t} && Partial(t, base, p, known, folder)
    ensures AllPartial(seen, earlier, base, p, known, folder)
  {
  }

  /** Copy everything below the source into a staging folder that holds only the marker. */
  method CopyTree(
    disk: Disk, caller: Caller, source: Path, staging: Path, walk: seq<Path>, plan: CopyPlan,
    known: Versions, ghost base: Tree, ghost folder: Tree, ghost marker: Bytes)
    returns (outcome: Result<CopyProgress, CopyError>)
    requires disk.Valid() && staging != [] && Apart(staging, source)
    requires Outside(disk.nodes, staging) == base
    requires Subtree(disk.nodes, staging) == Marked(Copied(folder, []), marker)
    requires Subtree(base, source) == folder && IsWalk(folder, walk)
    requires IsFolder(folder) && IsDir(folder, []) && IsDir(disk.nodes, staging)
    requires caller.Fresh()
    modifies disk, caller
    ensures disk.Valid()
    ensures if outcome == Failure(Cancelled) then caller.stopped else caller.Attended()
    ensures AllPartial(disk.seen, old(disk.seen), base, staging, known, folder)
    ensures IsDir(disk.nodes, staging) && Partial(disk.nodes, base, staging, known, folder)
    ensures outcome.Failure? ==> Stopped(outcome.error, TotalBytes(folder, walk) > U64_MAX)
    ensures outcome.Success? ==>
              && Outside(disk.nodes, staging) == base
              && Subtree(disk.nodes, staging) == Marked(folder, marker)
              && INCOMPLETE_COPY_MARKER !in folder
              && outcome.value == CopyProgress(TotalBytes(folder, walk), TotalFiles(folder, walk), plan)
              && Climbs(caller.reports, outcome.value)
    ensures disk.steady && caller.patient && TotalBytes(folder, walk) <= U64_MAX ==>
              (outcome.Success? <==> INCOMPLETE_COPY_MARKER !in folder)
  {
    hide WellFormed, Outside, Subtree, Place, Identify, Partial, AllPartial, Marked, Copied;
    hide OnlyCreates, Climbs, TotalBytes, TotalFiles, IsWalk, IsFolder, Writes;
    var copied := CopyProgress(0, 0, plan);
    caller.Progress(copied);
    assert caller.reports == [copied];
    CopyBegins(disk.nodes, disk.seen, base, staging, known, folder, marker, walk, copied);
    for i := 0 to |walk|
      invariant disk.Valid() && Outside(disk.nodes, staging) == base
      invariant IsDir(disk.nodes, staging)
      invariant Subtree(disk.nodes, staging) == Marked(Copied(folder, walk[..i]), marker)
      invariant AllPartial(disk.seen, old(disk.seen), base, staging, known, folder)
      invariant INCOMPLETE_COPY_MARKER !in walk[..i]
      invariant copied == CopyProgress(TotalBytes(folder, walk[..i]), TotalFiles(folder, walk[..i]), plan)
      invariant Climbs(caller.reports, copied) && caller.Attended()
    {
      WalkNext(folder, walk, i, marker);
      CopiedNext(folder, walk, i);
      TotalsNext(folder, walk, i);
      MarkedIsPartial(disk.nodes, base, staging, known, folder, Copied(folder, walk[..i]), marker);
      assert walk[..i + 1] == walk[..i] + [walk[i]];
      var cancelled := caller.Cancelled();
      if cancelled {
        return Failure(Cancelled);
      }
      var fault := disk.Fault();
      if fault {
        return Failure(Walk);
      }
      if walk[i] != [] {
        ghost var earlier := disk.seen;
        var entry := CopyEntry(disk, caller, source, staging, walk[i], copied, known, base, folder,
                               Copied(folder, walk[..i]), marker);
        StillPartial(disk.seen, earlier, old(disk.seen), base, staging, known, folder);
        if entry.Failure? {
          return Failure(entry.error);
        }
        copied := entry.value;
      }
    }
    assert walk[..|walk|] == walk;
    CopiedAll(folder, walk);
    MarkedIsPartial(disk.nodes, base, staging, known, folder, folder, marker);
    outcome := Success(copied);
  }

  lemma CopyBegins(
    t: Tree, seen: set<Tree>, base: Tree, p: Path, known: Versions, folder: Tree, marker: Bytes,
    walk: seq<Path>, copied: CopyProgress)
    requires Outside(t, p) == base && Subtree(t, p) == Marked(Copied(folder, []), marker)
    ensures Copied(folder, walk[..0]) == Copied(folder, [])
    ensures TotalBytes(folder, walk[..0]) == TotalFiles(folder, walk[..0]) == 0
    ensures AllPartial(seen, seen, base, p, known, folder)
    ensures copied == CopyProgress(0, 0, copied.plan) ==> Climbs([copied], copied)
  {
    assert walk[..0] == [];
  }

  lemma TotalsNext(folder: Tree, walk: seq<Path>, i: nat)
    requires i < |walk|
    ensures TotalBytes(folder, walk[..i + 1])
            == TotalBytes(folder, walk[..i]) + Length(folder, walk[i]) <= TotalBytes(folder, walk)
    ensures TotalFiles(folder, walk[..i + 1])
            == TotalFiles(folder, walk[..i]) + (if IsFile(folder, walk[i]) then 1 else 0)
            <= TotalFiles(folder, walk)
  {
    assert walk[..i + 1][..i] == walk[..i];
    TotalsGrow(folder, walk, i + 1);
  }

  lemma StillPartial(
    seen: set<Tree>, middle: set<Tree>, earlier: set<Tree>, base: Tree, p: Path, known: Versions,
    folder: Tree)
    requires AllPartial(seen, middle, base, p, known, folder)
    requires AllPartial(middle, earlier, base, p, known, folder)
    ensures AllPartial(seen, earlier, base, p, known, folder)
  {
  }

  /** The next entry of a walk is new, and its folder is already there. */
  lemma WalkNext(folder: Tree, walk: seq<Path>, i: nat, marker: Bytes)
    requires IsWalk(folder, walk) && IsFolder(folder) && IsDir(folder, [])
    requires i < |walk| && INCOMPLETE_COPY_MARKER !in walk[..i]
    ensures walk[i] in folder
    ensures walk[i] != [] ==>
              && walk[i] !in Copied(folder, walk[..i])
              && IsDir(Marked(Copied(folder, walk[..i]), marker), Parent(walk[i]))
  {
    assert walk[i] in walk;
    if walk[i] != [] {
      assert Parent(walk[i]) in walk[..i];
    }
  }

  // ----- The marker -----

  lemma MarkerWritten(
    after: Tree, t: Tree, base: Tree, p: Path, known: Versions, folder: Tree)
    requires Outside(t, p) == base && Writes(after, t, p + INCOMPLETE_COPY_MARKER)
    ensures Outside(after, p) == base && Partial(after, base, p, known, folder)
    ensures Subtree(after, p)
            == Marked(Subtree(t, p), after[p + INCOMPLETE_COPY_MARKER].content)
  {
    hide Subtree, Outside, Identify;
    var node := after[p + INCOMPLETE_COPY_MARKER];
    PutInside(t, p, INCOMPLETE_COPY_MARKER, node);
    MarkedIsPartial(after, base, p, known, folder, Subtree(t, p), node.content);
  }

  /** Write the marker into a copy: whatever becomes of the write, the copy stays partial. */
  method PutMarker(
    disk: Disk, p: Path, content: Bytes, ghost base: Tree, ghost known: Versions, ghost folder: Tree)
    returns (ok: bool)
    requires disk.Valid() && Partial(disk.nodes, base, p, known, folder)
    modifies disk
    ensures disk.Valid() && Partial(disk.nodes, base, p, known, folder)
    ensures Outside(disk.nodes, p) == base
    ensures AllPartial(disk.seen, old(disk.seen), base, p, known, folder)
    ensures IsDir(old(disk.nodes), p) ==> IsDir(disk.nodes, p)
    ensures ok ==> Subtree(disk.nodes, p) == Marked(Subtree(old(disk.nodes), p), content)
    ensures disk.steady && IsDir(old(disk.nodes), p) ==>
              !IsDir(old(disk.nodes), p + INCOMPLETE_COPY_MARKER) ==> ok
  {
    hide Subtree, Outside, Identify, Marked, WellFormed;
    ghost var before := disk.nodes;
    var marker := p + INCOMPLETE_COPY_MARKER;
    assert Parent(marker) == p;
    SubtreeAt(before, p, INCOMPLETE_COPY_MARKER);
    ok := disk.WriteFile(marker, content);
    forall t | Writes(t, before, marker) ensures Partial(t, base, p, known, folder) {
      MarkerWritten(t, before, base, p, known, folder);
    }
    if disk.nodes != before || ok {
      MarkerWritten(disk.nodes, before, base, p, known, folder);
    }
  }

  lemma PartialSoFar(
    seen: set<Tree>, earlier: set<Tree>, base: Tree, p: Path, known: Versions, folder: Tree)
    requires AllPartial(seen, earlier, base, p, known, folder)
    ensures forall t :: t in seen ==> t in earlier || Partial(t, base, p, known, folder)
  {
  }

  /** Take the marker out of a complete copy, which is then all there is. */
  method TakeMarker(
    disk: Disk, p: Path, ghost marker: Bytes, ghost base: Tree, ghost known: Versions,
    ghost folder: Tree)
    returns (ok: bool)
    requires disk.Valid() && IsDir(disk.nodes, p) && Outside(disk.nodes, p) == base
    requires Subtree(disk.nodes, p) == Marked(folder, marker) && INCOMPLETE_COPY_MARKER !in folder
    modifies disk
    ensures disk.Valid() && IsDir(disk.nodes, p) && Partial(disk.nodes, base, p, known, folder)
    ensures AllPartial(disk.seen, old(disk.seen), base, p, known, folder)
    ensures ok ==> Outside(disk.nodes, p) == base && Subtree(disk.nodes, p) == folder
    ensures disk.steady ==> ok
  {
    hide Subtree, Outside, Identify, WellFormed;
    ghost var before := disk.nodes;
    SubtreeAt(before, p, INCOMPLETE_COPY_MARKER);
    RemoveInside(before, p, INCOMPLETE_COPY_MARKER);
    MarkedIsPartial(before, base, p, known, folder, folder, marker);
    ok := disk.RemoveFile(p + INCOMPLETE_COPY_MARKER);
    assert Marked(folder, marker) - {INCOMPLETE_COPY_MARKER} == folder;
  }

  /** The removal of what a failed copy left at `place`, entry by entry, perhaps not to the end. */
  datatype Clearing = Clearing(place: Path, marked: bool, full: Tree, order: seq<Path>) {
    /** What is left when `n` entries have gone. */
    ghost function Left(n: nat): Tree
      requires n <= |order|
    {
      Cleared(full, order[..n])
    }
  }

  ghost function Passed(clearing: Option<Clearing>): set<Tree> {
    if clearing.None? then {}
    else set n | 0 <= n <= |clearing.value.order| :: clearing.value.Left(n)
  }

  lemma AllPassed(c: Clearing)
    ensures forall n :: 0 <= n <= |c.order| ==> c.Left(n) in Passed(Some(c))
  {
  }

  /**
   The clearing away of a copy: before it only the marker is written, and then one entry goes
   after another; `seen` is what the disk passes through besides `earlier`.
   */
  ghost predicate Clearance(
    c: Clearing, seen: set<Tree>, earlier: set<Tree>, base: Tree, known: Versions, folder: Tree)
  {
    && WellFormed(c.full) && Outside(c.full, c.place) == base
    && Clears(c.full, c.place, c.order)
    && (c.marked ==> IsFile(c.full, c.place + INCOMPLETE_COPY_MARKER))
    && forall t :: t in seen ==>
         t in earlier || Partial(t, base, c.place, known, folder) || t in Passed(Some(c))
  }

  /** The guard that clears away an unfinished copy. */
  class PartialCopy {
    var path: Option<Path>

    constructor (path: Path)
      ensures this.path == Some(path)
    {
      this.path := Some(path);
    }

    method MoveTo(path: Path)
      modifies this
      ensures this.path == Some(path)
    {
      this.path := Some(path);
    }

    method Keep()
      modifies this
      ensures path == None
    {
      path := None;
    }

    /**
     Mark what is left as incomplete, then remove it entry by entry; neither is certain to succeed.
     */
    method Drop(disk: Disk, ghost base: Tree, ghost known: Versions, ghost folder: Tree)
      returns (cleaned: bool, ghost clearing: Option<Clearing>)
      requires disk.Valid()
      requires path.Some? ==>
                 path.value != [] && Partial(disk.nodes, base, path.value, known, folder)
      modifies this, disk
      ensures disk.Valid() && path == None
      ensures clearing.None? <==> old(path).None?
      ensures old(path).None? ==> cleaned && disk.nodes == old(disk.nodes) && disk.seen == old(disk.seen)
      ensures old(path).Some? ==>
                var p, c := old(path).value, clearing.value;
                && c.place == p && Clearance(c, disk.seen, old(disk.seen), base, known, folder)
                && disk.nodes == c.Left(|c.order|)
                && (c.marked ==> Subtree(c.full, p) == Marked(Subtree(old(disk.nodes), p), INCOMPLETE))
                && (forall t :: t in Passed(clearing) ==> t in disk.seen)
                && (cleaned ==> disk.nodes == base)
                && (disk.steady && IsDir(old(disk.nodes), p) ==>
                      cleaned && (!IsDir(old(disk.nodes), p + INCOMPLETE_COPY_MARKER) ==> c.marked))
    {
      hide Subtree, Outside, Identify, WellFormed, Clears, Cleared, AllPartial, Marked;
      if path.None? {
        return true, None;
      }
      var p := path.value;
      path := None;
      ghost var before, earlier := disk.nodes, disk.seen;
      var marked := PutMarker(disk, p, INCOMPLETE, base, known, folder);
      ghost var full := disk.nodes;
      if marked {
        MarkerThere(full, p, Subtree(before, p), INCOMPLETE);
      }
      PartialSoFar(disk.seen, earlier, base, p, known, folder);
      ghost var order;
      cleaned, order := disk.RemoveDirAll(p);
      ghost var c := Clearing(p, marked, full, order);
      NothingCleared(full, p);
      assert order[..0] == [] && order[..|order|] == order;
      AllPassed(c);
      assert forall n :: 0 <= n <= |order| ==> c.Left(n) == Cleared(full, order[..n]);
      clearing := Some(c);
    }
  }

  lemma MarkerThere(t: Tree, p: Path, partial: Tree, content: Bytes)
    requires Subtree(t, p) == Marked(partial, content)
    ensures IsFile(t, p + INCOMPLETE_COPY_MARKER)
  {
    hide Subtree;
    SubtreeAt(t, p, INCOMPLETE_COPY_MARKER);
  }

  function Ascii(text: string): Bytes {
    seq(|text|, i requires 0 <= i < |text| => text[i] as int % 256)
  }

  const IN_PROGRESS: Bytes := Ascii("copy in progress\n")
  const VALIDATED: Bytes := Ascii("validated; moving into place\n")
  const INCOMPLETE: Bytes := Ascii("incomplete\n")

  // ----- The transaction -----

  /** The marked copy is moved as it is to where nothing was. */
  lemma MovedIntoPlace(t: Tree, base: Tree, from: Path, to: Path)
    requires Outside(t, from) == base && Outside(base, to) == base
    ensures Outside(Renamed(t, from, to), to) == base
    ensures Subtree(Renamed(t, from, to), to) == Subtree(t, from)
    ensures IsDir(t, from) ==> IsDir(Renamed(t, from, to), to)
  {
    hide Outside, Subtree, Place;
    PlacedAt(Outside(t, from), to, Subtree(t, from));
    SubtreeAt(t, from, []);
    SubtreeAt(Renamed(t, from, to), to, []);
    assert from + [] == from && to + [] == to;
  }

  lemma CanMoveIntoPlace(t: Tree, base: Tree, from: Path, to: Path)
    requires WellFormed(t) && IsDir(t, from) && Outside(t, from) == base && Outside(base, to) == base
    requires from != [] && to != [] && Parent(from) == Parent(to)
    ensures CanRename(t, from, to)
  {
    assert from == Parent(from) + [from[|from| - 1]] && to == Parent(to) + [to[|to| - 1]];
    assert from <= to ==> from == to;
    assert to !in Outside(base, to);
  }

  lemma FreshIsPartial(t: Tree, base: Tree, p: Path, known: Versions, folder: Tree)
    requires Outside(t, p) == base && Subtree(t, p) == map[[] := Dir]
    ensures Partial(t, base, p, known, folder)
  {
    AcceptedFolder(known, Subtree(t, p));
  }

  /** A state of the disk in which a copy of `folder` is under way at one of its two places. */
  ghost predicate UnderWay(
    t: Tree, base: Tree, staging: Path, destination: Path, known: Versions, folder: Tree)
  {
    Partial(t, base, staging, known, folder) || Partial(t, base, destination, known, folder)
  }

  ghost predicate AllUnderWay(
    after: set<Tree>, earlier: set<Tree>, base: Tree, staging: Path, destination: Path,
    known: Versions, folder: Tree)
  {
    forall t :: t in after ==> t in earlier || UnderWay(t, base, staging, destination, known, folder)
  }

  lemma NothingUnderWay(
    seen: set<Tree>, base: Tree, staging: Path, destination: Path, known: Versions, folder: Tree)
    ensures AllUnderWay(seen, seen, base, staging, destination, known, folder)
  {
  }

  lemma StillUnderWay(
    seen: set<Tree>, middle: set<Tree>, earlier: set<Tree>, base: Tree, p: Path, staging: Path,
    destination: Path, known: Versions, folder: Tree)
    requires p == staging || p == destination
    requires AllPartial(seen, middle, base, p, known, folder)
    requires AllUnderWay(middle, earlier, base, staging, destination, known, folder)
    ensures AllUnderWay(seen, earlier, base, staging, destination, known, folder)
  {
  }

  lemma MovedUnderWay(
    seen: set<Tree>, middle: set<Tree>, earlier: set<Tree>, t: Tree, base: Tree, staging: Path,
    destination: Path, known: Versions, folder: Tree)
    requires seen == middle + {t} && UnderWay(t, base, staging, destination, known, folder)
    requires AllUnderWay(middle, earlier, base, staging, destination, known, folder)
    ensures AllUnderWay(seen, earlier, base, staging, destination, known, folder)
  {
  }

  lemma FreshIsCopied(known: Versions, folder: Tree)
    requires Identify(known, folder).Success?
    ensures Marked(Copied(folder, []), IN_PROGRESS) == Marked(map[[] := Dir], IN_PROGRESS)
    ensures IsDir(folder, []) && !IsFile(folder, INCOMPLETE_COPY_MARKER)
  {
    assert Copied(folder, []) == map[[] := Dir];
  }

  /** Fill the staging folder and validate it, and mark it as ready to be moved. */
  method FillStaging(
    disk: Disk, caller: Caller, source: Path, accepted: Installation, staging: Path,
    walk: seq<Path>, plan: CopyPlan, known: Versions, ghost base: Tree, ghost folder: Tree)
    returns (error: Option<CopyError>)
    requires disk.Valid() && caller.Fresh() && staging != [] && Apart(staging, source)
    requires IsDir(disk.nodes, staging) && Outside(disk.nodes, staging) == base
    requires Subtree(disk.nodes, staging) == map[[] := Dir]
    requires Subtree(base, source) == folder && IsFolder(folder) && IsWalk(folder, walk)
    requires Identify(known, folder) == Success(accepted)
    requires plan == CopyPlan(TotalBytes(folder, walk), TotalFiles(folder, walk))
    modifies disk, caller
    ensures disk.Valid() && IsDir(disk.nodes, staging)
    ensures if error == Some(Cancelled) then caller.stopped else caller.Attended()
    ensures Partial(disk.nodes, base, staging, known, folder)
    ensures AllPartial(disk.seen, old(disk.seen), base, staging, known, folder)
    ensures error.Some? ==> Stopped(error.value, plan.bytes > U64_MAX)
    ensures error.None? ==>
              && Outside(disk.nodes, staging) == base
              && Subtree(disk.nodes, staging) == Marked(folder, VALIDATED)
              && INCOMPLETE_COPY_MARKER !in folder
              && Climbs(caller.reports, CopyProgress(plan.bytes, plan.files, plan))
    ensures disk.steady && caller.patient && plan.bytes <= U64_MAX ==>
              (error.None? <==> INCOMPLETE_COPY_MARKER !in folder)
  {
    hide Subtree, Outside, Identify, WellFormed, Partial, AllPartial, Marked, Copied;
    hide TotalBytes, TotalFiles, IsWalk, IsFolder, Climbs;
    ghost var earlier := disk.seen;
    FreshIsPartial(disk.nodes, base, staging, known, folder);
    FreshIsCopied(known, folder);
    SubtreeAt(disk.nodes, staging, INCOMPLETE_COPY_MARKER);
    var ok := PutMarker(disk, staging, IN_PROGRESS, base, known, folder);
    if !ok {
      return Some(Filesystem);
    }
    ghost var seen := disk.seen;
    var copied := CopyTree(disk, caller, source, staging, walk, plan, known, base, folder, IN_PROGRESS);
    StillPartial(disk.seen, seen, earlier, base, staging, known, folder);
    if copied.Failure? {
      return Some(copied.error);
    }
    if copied.value.copiedBytes != plan.bytes || copied.value.copiedFiles != plan.files {
      return Some(SourceChanged);
    }
    var cancelled := caller.Cancelled();
    if cancelled {
      return Some(Cancelled);
    }
    seen := disk.seen;
    ok := TakeMarker(disk, staging, IN_PROGRESS, base, known, folder);
    StillPartial(disk.seen, seen, earlier, base, staging, known, folder);
    if !ok {
      return Some(Filesystem);
    }
    var staged := IdentifyAt(disk, known, staging);
    if staged.Failure? {
      return Some(InvalidCopy(staged.error));
    }
    if staged.value != accepted {
      return Some(IdentityChanged);
    }
    seen := disk.seen;
    SubtreeAt(disk.nodes, staging, INCOMPLETE_COPY_MARKER);
    ok := PutMarker(disk, staging, VALIDATED, base, known, folder);
    StillPartial(disk.seen, seen, earlier, base, staging, known, folder);
    error := if ok then None else Some(Filesystem);
  }

  /** Fill the staging folder and move it into place; `cleanup` guards the copy. */
  method Transfer(
    disk: Disk, caller: Caller, cleanup: PartialCopy, source: Path, accepted: Installation,
    destination: Path, staging: Path, walk: seq<Path>, plan: CopyPlan, known: Versions,
    ghost base: Tree, ghost folder: Tree)
    returns (outcome: Result<InstallationCopy, CopyError>)
    requires disk.Valid() && cleanup.path == Some(staging) && caller.Fresh()
    requires staging != [] && destination != [] && Parent(staging) == Parent(destination)
    requires Apart(staging, source)
    requires IsDir(disk.nodes, staging) && Outside(disk.nodes, staging) == base
    requires Subtree(disk.nodes, staging) == map[[] := Dir] && Outside(base, destination) == base
    requires Subtree(base, source) == folder && IsFolder(folder) && IsWalk(folder, walk)
    requires Identify(known, folder) == Success(accepted)
    requires plan == CopyPlan(TotalBytes(folder, walk), TotalFiles(folder, walk))
    modifies disk, caller, cleanup
    ensures disk.Valid()
    ensures if outcome == Failure(Cancelled) then caller.stopped else caller.Attended()
    ensures AllUnderWay(disk.seen, old(disk.seen), base, staging, destination, known, folder)
    ensures outcome.Failure? ==>
              && Stopped(outcome.error, plan.bytes > U64_MAX)
              && cleanup.path.Some? && (cleanup.path.value == staging || cleanup.path.value == destination)
              && IsDir(disk.nodes, cleanup.path.value)
              && Partial(disk.nodes, base, cleanup.path.value, known, folder)
    ensures outcome.Success? ==>
              && outcome.value == InstallationCopy(accepted, plan) && cleanup.path.None?
              && INCOMPLETE_COPY_MARKER !in folder
              && Outside(disk.nodes, destination) == base
              && Subtree(disk.nodes, destination) == folder
              && Climbs(caller.reports, CopyProgress(plan.bytes, plan.files, plan))
    ensures disk.steady && caller.patient && plan.bytes <= U64_MAX ==>
              (outcome.Success? <==> INCOMPLETE_COPY_MARKER !in folder)
  {
    hide Subtree, Outside, Identify, WellFormed, Partial, AllPartial, Marked, Copied;
    hide TotalBytes, TotalFiles, IsWalk, IsFolder, Climbs, AllUnderWay;
    ghost var earlier, seen := disk.seen, disk.seen;
    NothingUnderWay(seen, base, staging, destination, known, folder);
    var error := FillStaging(
      disk, caller, source, accepted, staging, walk, plan, known, base, folder);
    StillUnderWay(disk.seen, seen, earlier, base, staging, staging, destination, known, folder);
    seen := disk.seen;
    if error.Some? {
      return Failure(error.value);
    }
    CanMoveIntoPlace(disk.nodes, base, staging, destination);
    MovedIntoPlace(disk.nodes, base, staging, destination);
    var ok := disk.Rename(staging, destination);
    MarkedIsPartial(disk.nodes, base, if ok then destination else staging, known, folder, folder, VALIDATED);
    MovedUnderWay(disk.seen, seen, earlier, disk.nodes, base, staging, destination, known, folder);
    seen := disk.seen;
    if !ok {
      return Failure(Filesystem);
    }
    cleanup.MoveTo(destination);
    ok := TakeMarker(disk, destination, VALIDATED, base, known, folder);
    StillUnderWay(disk.seen, seen, earlier, base, destination, staging, destination, known, folder);
    if !ok {
      return Failure(Filesystem);
    }
    var installed := IdentifyAt(disk, known, destination);
    if installed.Failure? {
      return Failure(InvalidCopy(installed.error));
    }
    if installed.value != accepted {
      return Failure(IdentityChanged);
    }
    cleanup.Keep();
    outcome := Success(InstallationCopy(installed.value, plan));
  }

  // ----- The whole copy -----

  /** What may appear outside the copy itself: folders on the way to the destination. */
  ghost predicate OnTheWay(
    t: Tree, q: Path, destination: Path, staging: Option<Path>)
    requires q in t
  {
    || destination <= q
    || (staging.Some? && staging.value <= q)
    || (destination != [] && q <= Parent(destination) && t[q].Dir?)
  }

  /**
   Nothing below the source has changed, appeared or gone; everything else that existed is unchanged;
   what is new is the copy, or a folder on the way to it.
   */
  ghost predicate Kept(
    t: Tree, before: Tree, source: Path, destination: Path, staging: Option<Path>)
  {
    && Subtree(t, source) == Subtree(before, source)
    && (forall q :: q in before ==> q in t && t[q] == before[q])
    && forall q :: q in t && q !in before ==> OnTheWay(t, q, destination, staging)
  }

  /**
   A state a crash may leave: besides, whatever `identify` would accept at the destination or in the
   staging folder is the whole source.
   */
  ghost predicate Safe(
    t: Tree, before: Tree, source: Path, destination: Path, staging: Option<Path>, known: Versions)
  {
    && Kept(t, before, source, destination, staging)
    && (Identify(known, Subtree(t, destination)).Success? ==>
          Subtree(t, destination) == Subtree(before, source))
    && (staging.Some? && Identify(known, Subtree(t, staging.value)).Success? ==>
          Subtree(t, staging.value) == Subtree(before, source))
  }

  ghost predicate AllSafe(
    after: set<Tree>, earlier: set<Tree>, before: Tree, source: Path, destination: Path,
    staging: Option<Path>, known: Versions)
  {
    forall t :: t in after ==>
      t in earlier || Safe(t, before, source, destination, staging, known)
  }

  lemma MissingIsRejected(t: Tree, p: Path, known: Versions)
    requires p !in t
    ensures !Identify(known, Subtree(t, p)).Success?
  {
    SubtreeAt(t, p, []);
    assert p + [] == p;
  }

  predicate Siblings(p: Path, q: Path) {
    p != [] && q != [] && Parent(p) == Parent(q)
  }

  lemma SiblingsAreNamed(p: Path, q: Path)
    requires Siblings(p, q)
    ensures p != [] && q != []
  {
  }

  lemma SiblingsApart(p: Path, q: Path)
    requires Siblings(p, q) && p <= q
    ensures p == q
  {
    assert p == Parent(p) + [p[|p| - 1]] && q == Parent(q) + [q[|q| - 1]];
  }

  lemma ParentsAreSafe(
    t: Tree, before: Tree, source: Path, destination: Path, staging: Option<Path>, known: Versions)
    requires destination != [] && destination !in before
    requires staging.Some? ==> Siblings(staging.value, destination) && staging.value !in before
    requires ParentsOnly(t, before, Parent(destination)) && !(source <= Parent(destination))
    ensures Safe(t, before, source, destination, staging, known)
  {
    hide Identify, Subtree;
    ParentsKeepSource(t, before, source, Parent(destination));
    MissingIsRejected(t, destination, known);
    if staging.Some? {
      MissingIsRejected(t, staging.value, known);
    }
  }

  lemma OutsideIsKept(t: Tree, before: Tree, base: Tree, source: Path, p: Path, other: Path)
    requires p != [] && Outside(t, p) == base
    requires ParentsOnly(base, before, Parent(p)) && !(source <= Parent(p)) && Apart(p, source)
    requires Siblings(p, other)
    ensures Kept(t, before, source, p, Some(other)) && Kept(t, before, source, other, Some(p))
  {
    hide Subtree;
    forall q | q in before ensures q in t && t[q] == before[q] {
      assert q in Outside(t, p) by { assert q in base; }
    }
    forall q | q in t && q !in before
      ensures p <= q || (q <= Parent(p) && t[q].Dir?)
    {
      if !(p <= q) {
        assert q in Outside(t, p);
        assert t[q] == base[q];
      }
    }
    SubtreeApart(t, p, source);
    ParentsKeepSource(base, before, source, Parent(p));
  }

  lemma PartialIsSafe(
    t: Tree, before: Tree, base: Tree, source: Path, p: Path, other: Path, known: Versions)
    requires Siblings(p, other) && p !in base && other !in base
    requires ParentsOnly(base, before, Parent(p)) && !(source <= Parent(p)) && Apart(p, source)
    requires Partial(t, base, p, known, Subtree(before, source))
    ensures Safe(t, before, source, p, Some(other), known)
    ensures Safe(t, before, source, other, Some(p), known)
  {
    hide Identify, Subtree, Kept, ParentsOnly;
    OutsideIsKept(t, before, base, source, p, other);
    if p != other {
      if p <= other { SiblingsApart(p, other); }
      assert other in t ==> other in Outside(t, p);
      MissingIsRejected(t, other, known);
    }
  }

  lemma UnderWayIsSafe(
    t: Tree, before: Tree, base: Tree, source: Path, destination: Path, staging: Path, known: Versions)
    requires Siblings(staging, destination) && staging !in base && destination !in base
    requires ParentsOnly(base, before, Parent(destination)) && !(source <= Parent(destination))
    requires Apart(staging, source) && Apart(destination, source)
    requires UnderWay(t, base, staging, destination, known, Subtree(before, source))
    ensures Safe(t, before, source, destination, Some(staging), known)
  {
    hide Identify, Subtree, Outside, Partial, ParentsOnly, Safe;
    if Partial(t, base, staging, known, Subtree(before, source)) {
      PartialIsSafe(t, before, base, source, staging, destination, known);
    } else {
      PartialIsSafe(t, before, base, source, destination, staging, known);
    }
  }

  /** A place for the copy lies neither inside the source nor around it. */
  lemma PlaceApart(before: Tree, source: Path, p: Path)
    requires WellFormed(before) && source in before && p !in before
    requires p != [] && !(source <= Parent(p))
    ensures Apart(p, source)
  {
    if source <= p {
      assert |source| == |p| ==> source == p[..|p|] == p;
    }
    if p <= source {
      NothingBelow(before, p, source);
    }
  }

  lemma ParentsKeepSource(base: Tree, before: Tree, source: Path, parent: Path)
    requires ParentsOnly(base, before, parent) && !(source <= parent)
    ensures Subtree(base, source) == Subtree(before, source)
  {
    forall rel ensures rel in Subtree(base, source) <==> rel in Subtree(before, source) {
      SubtreeAt(base, source, rel);
      SubtreeAt(before, source, rel);
      assert source <= source + rel;
    }
  }

  lemma StagingCreated(base: Tree, staging: Path)
    requires WellFormed(base) && staging !in base
    ensures Outside(base[staging := Dir], staging) == base
    ensures Subtree(base[staging := Dir], staging) == map[[] := Dir]
  {
    hide Subtree, Outside;
    MissingIsEmpty(base, staging);
    PutInside(base, staging, [], Dir);
    assert staging + [] == staging;
  }

  lemma ParentsKeepNames(base: Tree, before: Tree, parent: Path, process: nat)
    requires ParentsOnly(base, before, parent)
    ensures StagingFree(base, parent, process) <==> StagingFree(before, parent, process)
    ensures forall p :: p != [] && Parent(p) == parent ==> (p in base <==> p in before)
  {
    hide StagingName;
    forall suffix | 0 <= suffix < STAGING_NAMES
      ensures Staging(parent, process, suffix) in base <==> Staging(parent, process, suffix) in before
    {
      assert Parent(Staging(parent, process, suffix)) == parent;
    }
  }

  /** The checks made before anything is written. */
  ghost predicate Checked(
    before: Tree, source: Path, destination: Path, walk: seq<Path>, known: Versions)
  {
    var folder := Subtree(before, source);
    && Identify(known, folder).Success?
    && destination !in before && destination != [] && ".." !in destination
    && !(source <= Parent(destination))
    && TotalBytes(folder, walk) <= U64_MAX && TotalFiles(folder, walk) <= U64_MAX
  }

  /** What a copy needs before anything is copied, when nothing else fails. */
  ghost predicate Preparable(
    before: Tree, source: Path, destination: Path, walk: seq<Path>, space: Option<nat>,
    process: nat, known: Versions)
  {
    && Checked(before, source, destination, walk, known)
    && var parent := Parent(destination);
       && (forall n :: 0 <= n <= |parent| ==> !IsFile(before, parent[..n]))
       && space.Some? && TotalBytes(Subtree(before, source), walk) <= space.value
       && StagingFree(before, parent, process)
  }

  /** Every check has passed, and only folders on the way to the destination have been created. */
  ghost predicate MakesRoom(
    after: Tree, before: Tree, source: Path, destination: Path, walk: seq<Path>, known: Versions)
  {
    && Checked(before, source, destination, walk, known)
    && ParentsOnly(after, before, Parent(destination))
  }

  ghost predicate OnlyPrepares(
    after: set<Tree>, earlier: set<Tree>, before: Tree, source: Path, destination: Path,
    walk: seq<Path>, known: Versions)
  {
    forall t :: t in after ==>
      t in earlier || MakesRoom(t, before, source, destination, walk, known)
  }

  /** An error tells a fact about the disk as it was found. */
  ghost predicate Truthful(
    error: CopyError, before: Tree, source: Path, destination: Path, walk: seq<Path>,
    space: Option<nat>, process: nat, known: Versions)
  {
    var folder := Subtree(before, source);
    match error
    case SourceRejected(e) => e.Unreadable? || Identify(known, folder) == Failure(e)
    case DestinationExists => destination in before
    case UnsafeDestination => ".." in destination
    case DestinationInsideSource => destination != [] && source <= Parent(destination)
    case SourceTooLarge => TotalBytes(folder, walk) > U64_MAX || TotalFiles(folder, walk) > U64_MAX
    case InsufficientSpace(required, available) =>
      required == TotalBytes(folder, walk) > available && space == Some(available)
    case NoStagingDirectory =>
      destination != [] && !StagingFree(before, Parent(destination), process)
    case Space => space.None?
    case _ => Stopped(error, false)
  }

  /** The errors of the checks, which come before anything is written. */
  predicate FromChecks(error: CopyError) {
    || error.SourceRejected? || error.DestinationExists? || error.UnsafeDestination?
    || error.DestinationInsideSource? || error.SourceTooLarge?
  }

  datatype Prepared = Prepared(installation: Installation, plan: CopyPlan, staging: Path)

  /** Everything before the first file is copied: the checks, the measurement, an empty staging folder. */
  method Prepare(
    disk: Disk, source: Path, destination: Path, walk: seq<Path>, space: Option<nat>, process: nat,
    known: Versions)
    returns (outcome: Result<Prepared, CopyError>, ghost base: Tree)
    requires disk.Valid() && IsWalk(Subtree(disk.nodes, source), walk)
    modifies disk
    ensures disk.Valid() && WellFormed(base)
    ensures base == old(disk.nodes)
            || MakesRoom(base, old(disk.nodes), source, destination, walk, known)
    ensures OnlyPrepares(disk.seen - (if outcome.Success? then {disk.nodes} else {}),
                         old(disk.seen), old(disk.nodes), source, destination, walk, known)
    ensures outcome.Failure? ==>
              && disk.nodes == base && !outcome.error.Cancelled?
              && Truthful(outcome.error, old(disk.nodes), source, destination, walk, space, process,
                          known)
              && (FromChecks(outcome.error) ==>
                    disk.nodes == old(disk.nodes) && disk.seen == old(disk.seen))
    ensures outcome.Success? ==>
              var p := outcome.value;
              && Preparable(old(disk.nodes), source, destination, walk, space, process, known)
              && source in old(disk.nodes)
              && ParentsOnly(base, old(disk.nodes), Parent(destination))
              && Identify(known, Subtree(old(disk.nodes), source)) == Success(p.installation)
              && p.plan == CopyPlan(TotalBytes(Subtree(old(disk.nodes), source), walk),
                                    TotalFiles(Subtree(old(disk.nodes), source), walk))
              && Siblings(p.staging, destination) && p.staging !in base
              && disk.nodes == base[p.staging := Dir]
    ensures disk.steady
            && Preparable(old(disk.nodes), source, destination, walk, space, process, known) ==>
              outcome.Success?
  {
    hide WellFormed, Identify, IsWalk, TotalBytes, TotalFiles, ParentsOnly, StagingFree, Subtree;
    base := disk.nodes;
    SourceExists(disk.nodes, source, known);
    var accepted := IdentifyAt(disk, known, source);
    if accepted.Failure? {
      return Failure(SourceRejected(accepted.error)), base;
    }
    RootExists(disk.nodes);
    if destination in disk.nodes {
      return Failure(DestinationExists), base;
    }
    var error := ValidateDestination(disk, source, destination);
    if error.Some? {
      return Failure(error.value), base;
    }
    var plan := MeasureInstallation(disk, source, walk);
    if plan.Failure? {
      return Failure(plan.error), base;
    }
    assert Checked(disk.nodes, source, destination, walk, known);
    var parent := Parent(destination);
    var created := disk.CreateDirAll(parent);
    base := disk.nodes;
    if !created {
      return Failure(Filesystem), base;
    }
    if space.None? {
      return Failure(Space), base;
    }
    if space.value < plan.value.bytes {
      return Failure(InsufficientSpace(plan.value.bytes, space.value)), base;
    }
    ParentsKeepNames(base, old(disk.nodes), parent, process);
    var staging := AllocateStaging(disk, parent, process);
    if staging.Failure? {
      return Failure(staging.error), base;
    }
    outcome := Success(Prepared(accepted.value, plan.value, staging.value));
  }

  lemma EitherWalk(
    before: Tree, source: Path, destination: Path, walk: seq<Path>, other: seq<Path>,
    space: Option<nat>, process: nat, known: Versions)
    requires IsWalk(Subtree(before, source), walk) && IsWalk(Subtree(before, source), other)
    ensures TotalBytes(Subtree(before, source), walk) == TotalBytes(Subtree(before, source), other)
    ensures TotalFiles(Subtree(before, source), walk) == TotalFiles(Subtree(before, source), other)
    ensures Checked(before, source, destination, walk, known)
            <==> Checked(before, source, destination, other, known)
    ensures Preparable(before, source, destination, walk, space, process, known)
            <==> Preparable(before, source, destination, other, space, process, known)
  {
    hide Identify, Subtree, StagingFree, TotalBytes, TotalFiles;
    TotalsIgnoreOrder(Subtree(before, source), walk, other);
  }

  lemma EitherWalkTells(
    error: CopyError, before: Tree, source: Path, destination: Path, walk: seq<Path>,
    other: seq<Path>, space: Option<nat>, process: nat, known: Versions)
    requires IsWalk(Subtree(before, source), walk) && IsWalk(Subtree(before, source), other)
    requires Truthful(error, before, source, destination, walk, space, process, known)
    ensures Truthful(error, before, source, destination, other, space, process, known)
  {
    hide Identify, Subtree, StagingFree, TotalBytes, TotalFiles;
    TotalsIgnoreOrder(Subtree(before, source), walk, other);
  }

  lemma StoppedIsTruthful(
    error: CopyError, before: Tree, source: Path, destination: Path, walk: seq<Path>,
    space: Option<nat>, process: nat, known: Versions)
    requires Stopped(error, false)
    ensures !FromChecks(error)
    ensures Truthful(error, before, source, destination, walk, space, process, known)
  {
  }

  lemma PreparedIsSafe(
    seen: set<Tree>, earlier: set<Tree>, before: Tree, source: Path, destination: Path,
    staging: Option<Path>, walk: seq<Path>, known: Versions)
    requires OnlyPrepares(seen, earlier, before, source, destination, walk, known)
    requires staging.Some? ==> Siblings(staging.value, destination) && staging.value !in before
    ensures AllSafe(seen, earlier, before, source, destination, staging, known)
  {
    hide Safe, ParentsOnly, Siblings;
    forall t | t in seen && t !in earlier
      ensures Safe(t, before, source, destination, staging, known)
    {
      ParentsAreSafe(t, before, source, destination, staging, known);
    }
  }

  lemma UnderWayAreSafe(
    seen: set<Tree>, middle: set<Tree>, earlier: set<Tree>, before: Tree, base: Tree, source: Path,
    destination: Path, staging: Path, known: Versions)
    requires Siblings(staging, destination) && staging !in base && destination !in base
    requires ParentsOnly(base, before, Parent(destination)) && !(source <= Parent(destination))
    requires Apart(staging, source) && Apart(destination, source)
    requires AllUnderWay(seen, middle, base, staging, destination, known, Subtree(before, source))
    requires AllSafe(middle, earlier, before, source, destination, Some(staging), known)
    ensures AllSafe(seen, earlier, before, source, destination, Some(staging), known)
  {
    hide Safe, ParentsOnly, Siblings, UnderWay, Subtree;
    forall t | t in seen && t !in middle
      ensures Safe(t, before, source, destination, Some(staging), known)
    {
      UnderWayIsSafe(t, before, base, source, destination, staging, known);
    }
  }

  /** The empty staging folder beside the destination is a fit place for the source to be copied to. */
  lemma ReadyToTransfer(
    before: Tree, base: Tree, source: Path, destination: Path, staging: Path)
    requires WellFormed(before) && WellFormed(base) && source in before && destination !in before
    requires Siblings(staging, destination) && !(source <= Parent(destination))
    requires ParentsOnly(base, before, Parent(destination)) && staging !in base
    ensures Apart(staging, source) && Apart(destination, source)
    ensures staging !in before && destination !in base
    ensures Outside(base[staging := Dir], staging) == base && Outside(base, destination) == base
    ensures Subtree(base[staging := Dir], staging) == map[[] := Dir]
    ensures Subtree(base, source) == Subtree(before, source) && IsFolder(Subtree(before, source))
  {
    hide Outside, Subtree;
    PlaceApart(before, source, staging);
    PlaceApart(before, source, destination);
    StagingCreated(base, staging);
    MissingIsEmpty(base, destination);
    ParentsKeepSource(base, before, source, Parent(destination));
    SubtreeForm(before, source);
  }

  lemma SourceExists(t: Tree, source: Path, known: Versions)
    ensures Identify(known, Subtree(t, source)).Success? ==> source in t
  {
    SubtreeAt(t, source, []);
    assert source + [] == source;
  }

  lemma RootExists(t: Tree)
    requires WellFormed(t)
    ensures [] in t
  {
  }

  // ----- Clearing away a failed copy -----

  /** The marker is there, or no data directory is. */
  ghost predicate Unrecognized(t: Tree, p: Path) {
    || IsFile(t, p + [".reveille-copy-incomplete"])
    || !(IsDir(t, p + ["main"]) || IsDir(t, p + ["mainta"]) || IsDir(t, p + ["maintt"]))
  }

  /** Safe exactly when the marker is there, or no data directory is, or the whole source. */
  ghost predicate Exposed(
    t: Tree, before: Tree, source: Path, destination: Path, staging: Option<Path>, place: Path,
    known: Versions)
  {
    && Kept(t, before, source, destination, staging)
    && (Safe(t, before, source, destination, staging, known)
        <==> Unrecognized(t, place) || Subtree(t, place) == Subtree(before, source))
  }

  /**
   What clearing away a failed copy passes through: nothing but the copy changes, and of every state
   it is known whether it is safe to crash in.
   */
  ghost predicate Exposes(
    c: Clearing, before: Tree, source: Path, destination: Path, staging: Option<Path>,
    known: Versions)
  {
    && staging.Some? && (c.place == staging.value || c.place == destination)
    && Clears(c.full, c.place, c.order)
    && (c.marked ==> IsFile(c.full, c.place + INCOMPLETE_COPY_MARKER))
    && forall n :: 0 <= n <= |c.order| ==>
         Exposed(c.Left(n), before, source, destination, staging, c.place, known)
  }

  lemma RecognizedMeans(t: Tree, p: Path, known: Versions)
    requires WellFormed(t)
    ensures Identify(known, Subtree(t, p)).Success? <==> !Unrecognized(t, p)
  {
    hide Subtree, Identify, IsDir, IsFile, WellFormed;
    AcceptedFolder(known, Subtree(t, p));
    KindBelow(t, p, []);
    assert p + [] == p;
    KindBelow(t, p, [".reveille-copy-incomplete"]);
    KindBelow(t, p, ["main"]);
    KindBelow(t, p, ["mainta"]);
    KindBelow(t, p, ["maintt"]);
  }

  /** What is below a path is of the same kind in the subtree, and below a folder. */
  lemma KindBelow(t: Tree, p: Path, rel: Path)
    requires WellFormed(t)
    ensures IsDir(Subtree(t, p), rel) <==> IsDir(t, p + rel)
    ensures IsFile(Subtree(t, p), rel) <==> IsFile(t, p + rel)
    ensures |rel| == 1 && IsDir(t, p + rel) ==> IsDir(t, p)
  {
    hide Subtree;
    SubtreeAt(t, p, rel);
    assert |rel| == 1 ==> Parent(p + rel) == p;
  }

  lemma SafeExactly(
    t: Tree, before: Tree, base: Tree, source: Path, destination: Path, staging: Path, p: Path,
    known: Versions)
    requires p == staging || p == destination
    requires Siblings(staging, destination) && staging !in base && destination !in base
    requires ParentsOnly(base, before, Parent(destination)) && !(source <= Parent(destination))
    requires Apart(staging, source) && Apart(destination, source)
    requires WellFormed(t) && Outside(t, p) == base
    ensures Exposed(t, before, source, destination, Some(staging), p, known)
  {
    hide Identify, Subtree, Outside, ParentsOnly, Kept, Unrecognized, WellFormed;
    RecognizedMeans(t, p, known);
    OutsideIsKept(t, before, base, source, p, if p == staging then destination else staging);
    if Unrecognized(t, p) || Subtree(t, p) == Subtree(before, source) {
      UnderWayIsSafe(t, before, base, source, destination, staging, known);
    }
  }

  /** A removal that leaves the marker until the data directories have gone exposes nothing. */
  lemma MarkerOutlivesData(c: Clearing, n: nat)
    requires n <= |c.order| && IsFile(c.full, c.place + INCOMPLETE_COPY_MARKER)
    requires forall i :: 0 <= i < |c.order| && c.order[i] == c.place + INCOMPLETE_COPY_MARKER ==>
               Unrecognized(c.Left(i + 1), c.place)
    ensures Unrecognized(c.Left(n), c.place)
  {
    hide Unrecognized, Cleared;
    var marker := c.place + INCOMPLETE_COPY_MARKER;
    if i :| 0 <= i < n && c.order[i] == marker {
      assert forall q :: q in c.order[..i + 1] ==> q in c.order[..n];
      assert c.order[..i + 1][i] == marker;
      StillUnrecognized(c.full, c.order[..i + 1], c.order[..n], c.place);
    } else {
      MarkerStillThere(c.full, c.order[..n], c.place);
    }
  }

  lemma MarkerStillThere(t: Tree, order: seq<Path>, p: Path)
    requires IsFile(t, p + INCOMPLETE_COPY_MARKER) && p + INCOMPLETE_COPY_MARKER !in order
    ensures Unrecognized(Cleared(t, order), p)
  {
  }

  lemma StillUnrecognized(t: Tree, order: seq<Path>, more: seq<Path>, p: Path)
    requires forall q :: q in order ==> q in more
    requires p + INCOMPLETE_COPY_MARKER in order && Unrecognized(Cleared(t, order), p)
    ensures Unrecognized(Cleared(t, more), p)
  {
  }

  const WHOLE: Tree := map[[] := Dir, ["main"] := Dir, ["main", "pak0.pk3"] := File([1])]

  const COPIED: Tree :=
    map[[] := Dir, ["game"] := Dir, ["game", "main"] := Dir, ["game", "main", "pak0.pk3"] := File([1]),
        ["game", ".reveille-copy-incomplete"] := File(INCOMPLETE)]

  /**
   A removal that comes to the marker first does expose a part: a crash two entries later leaves a
   folder that is accepted as an installation, without the file the whole copy held.
   */
  lemma MarkerMayGoFirst(known: Versions)
    ensures WellFormed(COPIED) && Subtree(COPIED, ["game"]) == Marked(WHOLE, INCOMPLETE)
    ensures var order := [["game", ".reveille-copy-incomplete"], ["game", "main", "pak0.pk3"]];
            var left := Subtree(Cleared(COPIED, order), ["game"]);
            && Clears(COPIED, ["game"], order)
            && Identify(known, left).Success? && left != WHOLE
  {
    hide Subtree, Identify, Clears, Cleared, INCOMPLETE;
    WholeIsMarked();
    GameClears();
    MainIsLeft();
    var left: Tree := map[[] := Dir, ["game"] := Dir, ["game", "main"] := Dir];
    RecognizedMeans(left, ["game"], known);
    assert ["game"] + ["main"] == ["game", "main"];
    SubtreeAt(left, ["game"], ["main", "pak0.pk3"]);
  }

  lemma MainIsLeft()
    ensures var left: Tree := map[[] := Dir, ["game"] := Dir, ["game", "main"] := Dir];
            && WellFormed(left)
            && Cleared(COPIED, [["game", ".reveille-copy-incomplete"], ["game", "main", "pak0.pk3"]])
               == left
  {
    hide INCOMPLETE;
    assert Parent(["game"]) == [] && Parent(["game", "main"]) == ["game"];
    var marker: Path := ["game", ".reveille-copy-incomplete"];
    assert "main" != ".reveille-copy-incomplete" by {
      assert |"main"| != |".reveille-copy-incomplete"|;
    }
    assert ["game", "main"][1] != marker[1];
    assert ["game", "main"] !in [marker, ["game", "main", "pak0.pk3"]];
  }

  lemma WholeIsMarked()
    ensures WellFormed(COPIED) && Subtree(COPIED, ["game"]) == Marked(WHOLE, INCOMPLETE)
  {
    hide Subtree, Outside, INCOMPLETE;
    CopiedIsTree();
    var game, marker: Path := ["game"], [".reveille-copy-incomplete"];
    var t0: Tree := map[[] := Dir][game := Dir];
    StagingCreated(map[[] := Dir], game);
    PutInside(t0, game, ["main"], Dir);
    var t1 := t0[game + ["main"] := Dir];
    PutInside(t1, game, ["main", "pak0.pk3"], File([1]));
    var t2 := t1[game + ["main", "pak0.pk3"] := File([1])];
    PutInside(t2, game, marker, File(INCOMPLETE));
    assert game + ["main"] == ["game", "main"] && game + marker == ["game", ".reveille-copy-incomplete"];
    assert game + ["main", "pak0.pk3"] == ["game", "main", "pak0.pk3"];
    assert t2[game + marker := File(INCOMPLETE)] == COPIED;
  }

  lemma CopiedIsTree()
    ensures WellFormed(COPIED)
  {
    hide INCOMPLETE;
    assert Parent(["game"]) == [] && Parent(["game", "main"]) == ["game"];
    assert Parent(["game", "main", "pak0.pk3"]) == ["game", "main"];
    assert Parent(["game", ".reveille-copy-incomplete"]) == ["game"];
  }

  lemma GameClears()
    ensures Clears(COPIED, ["game"],
                   [["game", ".reveille-copy-incomplete"], ["game", "main", "pak0.pk3"]])
  {
    hide INCOMPLETE;
    var marker: Path := ["game", ".reveille-copy-incomplete"];
    var pak: Path := ["game", "main", "pak0.pk3"];
    assert "main" != ".reveille-copy-incomplete" by {
      assert |"main"| != |".reveille-copy-incomplete"|;
    }
    assert marker[1] != pak[1];
    forall q | q in COPIED && (marker <= q || pak <= q) ensures q == marker || q == pak {
      assert marker <= q ==> q[1] == marker[1];
    }
    assert !(marker <= pak) && !(pak <= marker);
  }

  /** What a copy needs to succeed when no operation fails and the caller never cancels. */
  ghost predicate Feasible(
    before: Tree, source: Path, destination: Path, walk: seq<Path>, space: Option<nat>,
    process: nat, known: Versions)
  {
    && Preparable(before, source, destination, walk, space, process, known)
    && INCOMPLETE_COPY_MARKER !in Subtree(before, source)
  }

  /** A folder in the marker's place is no marker: what holds it is identified, and never feasible. */
  lemma MarkerFolderIsAccepted(known: Versions)
    ensures var folder: Tree :=
              map[[] := Dir, AlliedAssault.DataDirectory() := Dir, INCOMPLETE_COPY_MARKER := Dir];
            Identify(known, folder).Success? && INCOMPLETE_COPY_MARKER in folder
  {
    AcceptedFolder(known, map[[] := Dir, ["main"] := Dir, INCOMPLETE_COPY_MARKER := Dir]);
  }

  /**
   Copy an installation to where nothing is. Success leaves exactly the source's tree at the
   destination, and is only possible when the copy is feasible; failure leaves the disk as it was,
   but for folders created on the way to the destination once every check has passed, if cleaning up
   succeeds. Every state on the way is safe to crash in, but for those of clearing away a failed copy,
   of which exactly the exposed ones are not.
   */
  method CopyInstallation(
    disk: Disk, caller: Caller, source: Path, destination: Path, measured: seq<Path>,
    walk: seq<Path>, space: Option<nat>, process: nat, known: Versions)
    returns (outcome: Result<InstallationCopy, CopyError>, cleaned: bool,
             ghost staging: Option<Path>, ghost clearing: Option<Clearing>)
    requires disk.Valid() && caller.Fresh()
    requires IsWalk(Subtree(disk.nodes, source), measured) && IsWalk(Subtree(disk.nodes, source), walk)
    modifies disk, caller
    ensures disk.Valid()
    ensures AllSafe(disk.seen - Passed(clearing), old(disk.seen), old(disk.nodes), source,
                    destination, staging, known)
    ensures clearing.Some? ==>
              && outcome.Failure? && disk.nodes == clearing.value.Left(|clearing.value.order|)
              && Exposes(clearing.value, old(disk.nodes), source, destination, staging, known)
    ensures if outcome == Failure(Cancelled) then caller.stopped else caller.Attended()
    ensures outcome.Success? ==>
              && cleaned
              && Feasible(old(disk.nodes), source, destination, walk, space, process, known)
              && Subtree(disk.nodes, destination) == Subtree(old(disk.nodes), source)
              && ParentsOnly(Outside(disk.nodes, destination), old(disk.nodes), Parent(destination))
              && Identify(known, Subtree(old(disk.nodes), source))
                 == Success(outcome.value.installation)
              && outcome.value.source
                 == CopyPlan(TotalBytes(Subtree(old(disk.nodes), source), walk),
                             TotalFiles(Subtree(old(disk.nodes), source), walk))
              && Climbs(caller.reports, CopyProgress(
                          outcome.value.source.bytes, outcome.value.source.files,
                          outcome.value.source))
    ensures outcome.Failure? ==>
              && Truthful(outcome.error, old(disk.nodes), source, destination, walk, space, process,
                          known)
              && (FromChecks(outcome.error) ==>
                    disk.nodes == old(disk.nodes) && disk.seen == old(disk.seen))
    ensures outcome.Failure? && cleaned ==>
              || disk.nodes == old(disk.nodes)
              || MakesRoom(disk.nodes, old(disk.nodes), source, destination, walk, known)
    ensures disk.steady && caller.patient ==>
              && cleaned
              && (Feasible(old(disk.nodes), source, destination, walk, space, process, known) ==>
                    outcome.Success?)
  {
    hide WellFormed, Identify, IsWalk, TotalBytes, TotalFiles, ParentsOnly, Subtree, Outside;
    hide Partial, AllPartial, UnderWay, AllUnderWay, Safe, Climbs, IsFolder, Clearance, Exposes;
    hide StagingFree, Truthful, Stopped, FromChecks, OnlyPrepares;
    ghost var before, earlier := disk.nodes, disk.seen;
    ghost var folder := Subtree(before, source);
    EitherWalk(before, source, destination, measured, walk, space, process, known);
    var prepared, base := Prepare(disk, source, destination, measured, space, process, known);
    if prepared.Failure? {
      assert disk.seen - {} == disk.seen;
      PreparedIsSafe(disk.seen, earlier, before, source, destination, None, measured, known);
      EitherWalkTells(prepared.error, before, source, destination, measured, walk, space, process,
                      known);
      return Failure(prepared.error), true, None, None;
    }
    var p := prepared.value.staging;
    staging := Some(p);
    ReadyToTransfer(before, base, source, destination, p);
    FreshIsPartial(disk.nodes, base, p, known, folder);
    PreparedIsSafe(disk.seen - {disk.nodes}, earlier, before, source, destination, staging,
                   measured, known);
    ghost var others := disk.seen - {disk.nodes};
    FreshUnderWay(disk.seen, disk.nodes, base, p, destination, known, folder);
    UnderWayAreSafe(disk.seen, others, earlier, before, base, source, destination, p, known);
    ghost var middle := disk.seen;
    var cleanup := new PartialCopy(p);
    outcome := Transfer(disk, caller, cleanup, source, prepared.value.installation, destination,
                        p, walk, prepared.value.plan, known, base, folder);
    UnderWayAreSafe(disk.seen, middle, earlier, before, base, source, destination, p, known);
    middle := disk.seen;
    if outcome.Failure? {
      StoppedIsTruthful(
        outcome.error, before, source, destination, walk, space, process, known);
    }
    cleaned, clearing := cleanup.Drop(disk, base, known, folder);
    if clearing.Some? {
      DroppedIsSafe(disk.seen, middle, earlier, before, base, source, destination, p,
                    clearing.value, known);
    }
  }

  lemma FreshUnderWay(
    seen: set<Tree>, t: Tree, base: Tree, staging: Path, destination: Path, known: Versions, folder: Tree)
    requires Partial(t, base, staging, known, folder)
    ensures AllUnderWay(seen, seen - {t}, base, staging, destination, known, folder)
  {
  }

  lemma DroppedIsSafe(
    seen: set<Tree>, middle: set<Tree>, earlier: set<Tree>, before: Tree, base: Tree, source: Path,
    destination: Path, staging: Path, c: Clearing, known: Versions)
    requires c.place == staging || c.place == destination
    requires Siblings(staging, destination) && staging !in base && destination !in base
    requires ParentsOnly(base, before, Parent(destination)) && !(source <= Parent(destination))
    requires Apart(staging, source) && Apart(destination, source)
    requires Clearance(c, seen, middle, base, known, Subtree(before, source))
    requires AllSafe(middle, earlier, before, source, destination, Some(staging), known)
    ensures AllSafe(seen - Passed(Some(c)), earlier, before, source, destination, Some(staging), known)
    ensures Exposes(c, before, source, destination, Some(staging), known)
  {
    hide Safe, Kept, ParentsOnly, Siblings, Subtree, Outside, Partial, Identify, WellFormed, Clears;
    hide Unrecognized, Passed;
    forall t | t in seen && Partial(t, base, c.place, known, Subtree(before, source))
      ensures Safe(t, before, source, destination, Some(staging), known)
    {
      UnderWayIsSafe(t, before, base, source, destination, staging, known);
    }
    SiblingsAreNamed(staging, destination);
    forall n | 0 <= n <= |c.order|
      ensures Exposed(c.Left(n), before, source, destination, Some(staging), c.place, known)
    {
      ClearedOnTheWay(c.full, c.place, c.order, n);
      ClearedInside(c.full, c.place, c.order[..n]);
      ClearedKeepsForm(c.full, c.place, c.order[..n]);
      SafeExactly(c.Left(n), before, base, source, destination, staging, c.place, known);
    }
  }
}
