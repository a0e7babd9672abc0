/**
 Keeping the Original and Reborn programs of one installation, and switching between them.

 Whatever the operating system may refuse is a parameter of each operation, so that an operation is
 a function of the folder, its arguments and its faults.
 */
module Engines {
  import opened Common

  /** The canonical programs, whose files both engines share. */
  datatype Program = Mohaa | SpearheadProgram | BreakthroughProgram

  const RETAIL_PROGRAMS: seq<Program> := [Mohaa, SpearheadProgram, BreakthroughProgram]

  datatype Choice = Original | Openmohaa | Reborn

  datatype Activity = ConfirmedStopped | Running | UnknownActivity

  datatype Platform = Windows | Macos | Unsupported

  type Files = map<Program, Bytes>

  /** What was verified when Reborn was installed; content stands for its digest. */
  datatype Receipt = Receipt(currentBuild: bool, files: Files)

  datatype Record = Record(selected: Option<Choice>, originals: Files, reborn: Option<Receipt>)

  /** The state file: absent, of a form that is refused, or readable. */
  datatype StateFile = NoState | Refused | State(saved: Record)

  /** A program and what it is to contain. */
  datatype Executable = Executable(program: Program, content: Bytes)

  datatype EngineError =
    | NotSupported
    | Unavailable
    | SavedChoiceUnavailable
    | ChoiceRequired
    | NoSupportedEngine

  /** Everything about engines in one installation folder. */
  datatype Folder = Folder(
    active: Files,
    original: Files,
    reborn: Files,
    openmohaa: bool,
    state: StateFile)
  {
    function Selected(): Option<Choice> {
      if state.State? then state.saved.selected else None
    }

    function Receipted(): Option<Receipt> {
      if state.State? then state.saved.reborn else None
    }

    predicate OriginalInstalled(pinned: Program -> Bytes) {
      exists p :: p in RETAIL_PROGRAMS
                  && (p in original || (p in active && active[p] != pinned(p)))
    }

    predicate RebornInstalled(pinned: Program -> Bytes) {
      || (Mohaa in active && active[Mohaa] == pinned(Mohaa))
      || Receipted().Some?
      || exists p :: p in RETAIL_PROGRAMS && p in reborn
    }

    predicate Available(choice: Choice, pinned: Program -> Bytes) {
      match choice
      case Original => OriginalInstalled(pinned)
      case Openmohaa => openmohaa
      case Reborn => RebornInstalled(pinned)
    }

    function Managed(choice: Choice): Files {
      match choice
      case Original => original
      case Reborn => reborn
      case Openmohaa => map[]
    }
  }

  predicate Supports(platform: Platform, choice: Choice) {
    platform.Windows? || (platform.Macos? && choice.Openmohaa?)
  }

  // ----- Which engine to start -----

  function ResolveChoice(
    folder: Folder, requested: Option<Choice>, platform: Platform, pinned: Program -> Bytes)
    : Result<Choice, EngineError>
  {
    if requested.Some? then
      if !Supports(platform, requested.value) then Failure(NotSupported)
      else if !folder.Available(requested.value, pinned) then Failure(Unavailable)
      else Success(requested.value)
    else if folder.Selected().Some? then
      var saved := folder.Selected().value;
      if !Supports(platform, saved) then Failure(NotSupported)
      else if !folder.Available(saved, pinned) then Failure(SavedChoiceUnavailable)
      else Success(saved)
    else
      var openmohaa := Supports(platform, Openmohaa) && folder.openmohaa;
      var reborn := Supports(platform, Reborn) && folder.RebornInstalled(pinned);
      if openmohaa && reborn then Failure(ChoiceRequired)
      else if openmohaa then Success(Openmohaa)
      else if reborn then Success(Reborn)
      else if Supports(platform, Original) then Success(Original)
      else if Supports(platform, Openmohaa) then Failure(Unavailable)
      else Failure(NoSupportedEngine)
  }

  /**
   A request, or else a saved choice, is the only engine that can be started; without either an
   engine is only picked when it is the sole candidate. What is picked runs here, and it is there to
   run exactly when it was asked for, was saved, or anything at all is installed.
   */
  lemma NeverAnotherEngine(
    folder: Folder, requested: Option<Choice>, platform: Platform, pinned: Program -> Bytes)
    requires ResolveChoice(folder, requested, platform, pinned).Success?
    ensures var picked := ResolveChoice(folder, requested, platform, pinned).value;
            && Supports(platform, picked)
            && (requested.Some? ==> picked == requested.value)
            && (requested.None? && folder.Selected().Some? ==> picked == folder.Selected().value)
            && (requested.None? && folder.Selected().None? ==>
                  forall other: Choice ::
                    !other.Original? && Supports(platform, other) && folder.Available(other, pinned)
                    ==> other == picked)
            && (folder.Available(picked, pinned)
                <==> || requested.Some? || folder.Selected().Some?
                     || folder.openmohaa || folder.RebornInstalled(pinned)
                     || folder.OriginalInstalled(pinned))
  {
  }

  /** Windows runs every engine, macOS only OpenMoHAA, and no other host any. */
  lemma SupportedEngines(choice: Choice)
    ensures Supports(Windows, choice)
    ensures Supports(Macos, choice) <==> choice == Openmohaa
    ensures !Supports(Unsupported, choice)
  {
  }

  /**
   Original is here when a copy of it is saved or some active program is not Reborn's; Reborn is when
   its main program is active, or it was installed, or a managed copy of it is kept.
   */
  lemma AvailableMeans(f: Folder, pinned: Program -> Bytes)
    ensures f.Available(Original, pinned)
            <==> f.original != map[] || exists p :: p in f.active && f.active[p] != pinned(p)
    ensures f.Available(Reborn, pinned)
            <==> || (Mohaa in f.active && f.active[Mohaa] == pinned(Mohaa))
                 || (f.state.State? && f.state.saved.reborn.Some?) || f.reborn != map[]
    ensures f.Available(Openmohaa, pinned) <==> f.openmohaa
  {
    forall p: Program ensures p in RETAIL_PROGRAMS { EveryProgram(p); }
    assert f.original != map[] ==> exists p :: p in f.original;
    assert f.reborn != map[] ==> exists p :: p in f.reborn;
  }

  /** Every answer comes in exactly its own case. */
  lemma EachAnswerHasItsCase(
    f: Folder, requested: Option<Choice>, platform: Platform, pinned: Program -> Bytes)
    ensures var answer := ResolveChoice(f, requested, platform, pinned);
            var saved := if f.state.State? then f.state.saved.selected else None;
            var openmohaa := Supports(platform, Openmohaa) && f.Available(Openmohaa, pinned);
            var reborn := Supports(platform, Reborn) && f.Available(Reborn, pinned);
            if requested.Some? then
              var choice := requested.value;
              && (answer == Success(choice)
                  <==> Supports(platform, choice) && f.Available(choice, pinned))
              && (answer == Failure(NotSupported) <==> !Supports(platform, choice))
              && (answer == Failure(Unavailable)
                  <==> Supports(platform, choice) && !f.Available(choice, pinned))
            else if saved.Some? then
              var choice := saved.value;
              && (answer == Success(choice)
                  <==> Supports(platform, choice) && f.Available(choice, pinned))
              && (answer == Failure(NotSupported) <==> !Supports(platform, choice))
              && (answer == Failure(SavedChoiceUnavailable)
                  <==> Supports(platform, choice) && !f.Available(choice, pinned))
            else
              && (answer == Failure(ChoiceRequired) <==> openmohaa && reborn)
              && (answer == Success(Openmohaa) <==> openmohaa && !reborn)
              && (answer == Success(Reborn) <==> reborn && !openmohaa)
              && (answer == Success(Original)
                  <==> !openmohaa && !reborn && Supports(platform, Original))
              && (answer == Failure(Unavailable)
                  <==> && !openmohaa && !reborn && !Supports(platform, Original)
                       && Supports(platform, Openmohaa))
              && (answer == Failure(NoSupportedEngine)
                  <==> forall choice :: !Supports(platform, choice))
  {
    assert (forall choice :: !Supports(platform, choice))
      <==> !Supports(platform, Original) && !Supports(platform, Openmohaa)
           && !Supports(platform, Reborn);
  }

  /** In an empty folder, Original is still the answer on Windows, and is not there to run. */
  lemma NothingInstalledPicksOriginal(pinned: Program -> Bytes)
    ensures var empty := Folder(map[], map[], map[], false, NoState);
            && ResolveChoice(empty, None, Windows, pinned) == Success(Original)
            && !empty.Available(Original, pinned)
  {
  }

  // ----- Overlays -----

  /** The last content named for each program. */
  function Contents(files: seq<Executable>): Files {
    if files == [] then map[]
    else
      var last := files[|files| - 1];
      Contents(files[..|files| - 1])[last.program := last.content]
  }

  lemma {:induction false} ContentsHold(files: seq<Executable>)
    ensures forall p :: p in Contents(files) <==> Occurs(files, p)
  {
    if files != [] {
      var last := |files| - 1;
      ContentsHold(files[..last]);
      forall p ensures Occurs(files, p) <==> Occurs(files[..last], p) || files[last].program == p {
        assert Occurs(files[..last], p) ==> exists k :: 0 <= k < last && files[..last][k].program == p;
      }
    }
  }

  predicate Occurs(files: seq<Executable>, p: Program) {
    exists k :: 0 <= k < |files| && files[k].program == p
  }

  /**
   Preparing fails and nothing has been replaced, or the first `n` replacements succeed. When that is
   not all of them they are undone in reverse order, and the steps in `stuck` fail at that.
   */
  datatype OverlayFault = NotPrepared | Replaces(n: nat, stuck: set<nat>)

  predicate Completes(files: seq<Executable>, fault: OverlayFault) {
    fault.Replaces? && fault.n >= |files|
  }

  /** No step from `from` on that replaced `p` has been undone. */
  predicate Stays(files: seq<Executable>, from: nat, stuck: set<nat>, p: Program) {
    Occurs(files, p) && forall k :: from <= k < |files| && files[k].program == p ==> k in stuck
  }

  /** The replacements in `files`, undone from the last back to `from`. */
  function Undone(onto: Files, files: seq<Executable>, from: nat, stuck: set<nat>): Files {
    onto + Remaining(files, from, stuck)
  }

  function Remaining(files: seq<Executable>, from: nat, stuck: set<nat>): Files {
    map p | p in Contents(files) && Stays(files, from, stuck, p) :: Contents(files)[p]
  }

  function Overlaid(onto: Files, files: seq<Executable>, fault: OverlayFault): Files {
    if fault.NotPrepared? then onto
    else if fault.n >= |files| then onto + Contents(files)
    else Undone(onto, files[..fault.n], 0, fault.stuck)
  }

  /** Every program that was there still is, and each is as it was or as one of the files has it. */
  ghost predicate OldOrNew(after: Files, before: Files, files: seq<Executable>) {
    && (forall p :: p in before ==> p in after)
    && forall p :: OldOrNewAt(after, before, files, p)
  }

  predicate OldOrNewAt(after: Files, before: Files, files: seq<Executable>, p: Program) {
    || ((p in after <==> p in before) && (p in after ==> after[p] == before[p]))
    || (p in after && Executable(p, after[p]) in files)
  }

  /** Every state in `passed` is one a crash may leave: no program is missing or in between. */
  ghost predicate AllOldOrNew(passed: set<Files>, before: Files, files: seq<Executable>) {
    forall after :: after in passed ==> OldOrNew(after, before, files)
  }

  /** Replace every file, or undo what was replaced as far as that succeeds. */
  method TransactionalOverlay(onto: Files, files: seq<Executable>, fault: OverlayFault)
    returns (result: Files, ok: bool, ghost passed: set<Files>)
    ensures result == Overlaid(onto, files, fault) && (ok <==> Completes(files, fault))
    ensures result in passed && AllOldOrNew(passed, onto, files)
  {
    hide OldOrNew, Undone, Contents;
    NothingLaid(onto, files);
    NoContents();
    assert files[..0] == [] && onto + map[] == onto;
    result, passed := onto, {onto};
    if fault.NotPrepared? {
      return result, false, passed;
    }
    for i := 0 to |files|
      invariant i <= fault.n && result == onto + Contents(files[..i])
      invariant result in passed && AllOldOrNew(passed, onto, files)
    {
      assert files[..i + 1][..i] == files[..i];
      if i == fault.n {
        ghost var undoing;
        result, undoing := Rollback(result, onto, files[..i], fault.stuck);
        OldOrNewMore(undoing, onto, files, i);
        return result, false, passed + undoing;
      }
      ContentsOneMore(files[..i], files[i]);
      assert files[..i + 1] == files[..i] + [files[i]];
      result := result[files[i].program := files[i].content];
      LaidOldOrNew(onto, files, i + 1);
      passed := passed + {result};
    }
    assert files[..|files|] == files;
    ok := true;
  }

  /** Put the backups back, the last replacement first; a step that fails is passed over. */
  method Rollback(replaced: Files, backups: Files, files: seq<Executable>, stuck: set<nat>)
    returns (result: Files, ghost passed: set<Files>)
    requires replaced == backups + Contents(files)
    ensures result == Undone(backups, files, 0, stuck)
    ensures result in passed && AllOldOrNew(passed, backups, files)
  {
    hide Undone, Contents, OldOrNew;
    NothingUndone(backups, files, stuck);
    UndoneOldOrNew(backups, files, |files|, stuck);
    result, passed := replaced, {replaced};
    for k := |files| downto 0
      invariant result == Undone(backups, files, k, stuck)
      invariant result in passed && AllOldOrNew(passed, backups, files)
    {
      UndoneOneMore(backups, files, k, stuck);
      if k !in stuck {
        var p := files[k].program;
        result := if p in backups then result[p := backups[p]] else result - {p};
        UndoneOldOrNew(backups, files, k, stuck);
        passed := passed + {result};
      }
    }
  }

  lemma NothingLaid(files: Files, executables: seq<Executable>)
    ensures OldOrNew(files, files, executables)
  {
  }

  lemma LaidOldOrNew(onto: Files, files: seq<Executable>, n: nat)
    requires n <= |files|
    ensures OldOrNew(onto + Contents(files[..n]), onto, files)
  {
    hide Contents;
    ContentsIn(files[..n]);
    assert forall file :: file in files[..n] ==> file in files;
  }

  lemma UndoneOldOrNew(onto: Files, files: seq<Executable>, from: nat, stuck: set<nat>)
    ensures OldOrNew(Undone(onto, files, from, stuck), onto, files)
  {
    hide Contents;
    ContentsIn(files);
  }

  lemma OldOrNewMore(passed: set<Files>, before: Files, files: seq<Executable>, n: nat)
    requires n <= |files| && AllOldOrNew(passed, before, files[..n])
    ensures AllOldOrNew(passed, before, files)
  {
    forall after, p | after in passed ensures OldOrNewAt(after, before, files, p) {
      assert OldOrNew(after, before, files[..n]);
      assert OldOrNewAt(after, before, files[..n], p);
    }
  }

  lemma {:induction false} ContentsIn(files: seq<Executable>)
    ensures forall p :: p in Contents(files) ==> Executable(p, Contents(files)[p]) in files
  {
    if files != [] {
      ContentsIn(files[..|files| - 1]);
    }
  }

  lemma NothingUndone(onto: Files, files: seq<Executable>, stuck: set<nat>)
    ensures Undone(onto, files, |files|, stuck) == onto + Contents(files)
  {
    ContentsHold(files);
  }

  lemma UndoneOneMore(onto: Files, files: seq<Executable>, k: nat, stuck: set<nat>)
    requires k < |files|
    ensures var p := files[k].program;
            var before := Undone(onto, files, k + 1, stuck);
            Undone(onto, files, k, stuck)
            == if k in stuck then before
               else if p in onto then before[p := onto[p]] else before - {p}
  {
    hide Remaining;
    RemainingOneMore(files, k, stuck);
  }

  lemma RemainingOneMore(files: seq<Executable>, k: nat, stuck: set<nat>)
    requires k < |files|
    ensures var before := Remaining(files, k + 1, stuck);
            Remaining(files, k, stuck)
            == if k in stuck then before else before - {files[k].program}
  {
    hide Contents, Stays;
    StaysOneMore(files, k, stuck);
  }

  lemma SomeOccur(files: seq<Executable>, k: nat)
    requires k < |files|
    ensures Occurs(files, files[k].program)
  {
  }

  lemma StaysOneMore(files: seq<Executable>, k: nat, stuck: set<nat>)
    requires k < |files|
    ensures forall p :: Stays(files, k, stuck, p)
                        <==> Stays(files, k + 1, stuck, p) && (files[k].program == p ==> k in stuck)
  {
    hide Occurs;
  }

  /**
   A failed overlay leaves everything as it was exactly when every replacement was undone, those
   apart that changed nothing; what it does leave is some program's new content, whole.
   */
  lemma FailedOverlayRestores(onto: Files, files: seq<Executable>, fault: OverlayFault)
    requires !Completes(files, fault)
    ensures Overlaid(onto, files, fault) == onto
            <==> || fault.NotPrepared?
                 || forall p :: Stays(files[..fault.n], 0, fault.stuck, p) ==>
                      p in onto && p in Contents(files[..fault.n])
                      && onto[p] == Contents(files[..fault.n])[p]
    ensures fault.NotPrepared? || (forall k :: k in fault.stuck ==> k >= fault.n) ==>
              Overlaid(onto, files, fault) == onto
  {
    if fault.Replaces? {
      var done := files[..fault.n];
      ContentsHold(done);
      var result := Undone(onto, done, 0, fault.stuck);
      forall p | Stays(done, 0, fault.stuck, p) ensures p in result && result[p] == Contents(done)[p] {
      }
      forall p | Occurs(done, p) && (forall k :: k in fault.stuck ==> k >= fault.n)
        ensures !Stays(done, 0, fault.stuck, p)
      {
      }
    }
  }

  /** One replacement succeeds, the next fails, and putting the first program back fails too. */
  lemma StuckReplacementStays()
    ensures var files := [Executable(Mohaa, [2]), Executable(SpearheadProgram, [3])];
            var fault := Replaces(1, {0});
            && !Completes(files, fault)
            && Overlaid(map[Mohaa := [1]], files, fault) == map[Mohaa := [2]]
  {
    var files := [Executable(Mohaa, [2]), Executable(SpearheadProgram, [3])];
    var done := files[..1];
    assert done == [Executable(Mohaa, [2])] && done[..0] == [];
    assert Contents(done) == map[Mohaa := [2]];
    assert done[0].program == Mohaa;
    assert Stays(done, 0, {0}, Mohaa);
  }

  // ----- Saving the originals -----

  /** Where saving a program stops: nowhere, before the copy is made, or after part of it. */
  datatype Stop = GoesOn | NotCreated | After(length: nat)

  datatype SaveFault = SaveFault(unread: bool, stop: Stop)

  function FaultAt(faults: seq<SaveFault>, i: nat): SaveFault {
    if i < |faults| then faults[i] else SaveFault(false, GoesOn)
  }

  function Part(content: Bytes, length: nat): Bytes {
    if length < |content| then content[..length] else content
  }

  /** A program is saved when it is there, is not known to be Reborn's, and has no saved copy. */
  predicate NeedsSaving(active: Files, original: Files, p: Program, pinned: Program -> Bytes, unread: bool) {
    p in active && (unread || active[p] != pinned(p)) && p !in original
  }

  function Saved(
    active: Files, original: Files, executables: seq<Executable>, pinned: Program -> Bytes,
    faults: seq<SaveFault>): (Files, bool)
  {
    if executables == [] then (original, true)
    else
      var last := |executables| - 1;
      var (saved, ok) := Saved(active, original, executables[..last], pinned, faults);
      var p, fault := executables[last].program, FaultAt(faults, last);
      if !ok || !NeedsSaving(active, saved, p, pinned, fault.unread) then (saved, ok)
      else
        match fault.stop
        case GoesOn => (saved[p := active[p]], true)
        case NotCreated => (saved, false)
        case After(length) => (saved[p := Part(active[p], length)], false)
  }

  /** The saved copies of an attempt, told without the order of the attempt. */
  ghost predicate SavesOnly(
    original: Files, ok: bool, before: Folder, executables: seq<Executable>, pinned: Program -> Bytes)
  {
    && (forall p :: p in before.original ==> p in original && original[p] == before.original[p])
    && (forall p :: p in original && p !in before.original ==>
          Occurs(executables, p) && p in before.active && original[p] <= before.active[p])
    && (forall p, q :: p in original && q in original && p != q
                       && p !in before.original && q !in before.original ==>
          original[p] == before.active[p] || original[q] == before.active[q])
    && (ok ==>
          forall p :: p in original && p !in before.original ==> original[p] == before.active[p])
    && (ok ==>
          forall p :: Occurs(executables, p) && p in before.active && before.active[p] != pinned(p)
                      ==> p in original)
  }

  lemma {:induction false} SavesOnlyThese(
    before: Folder, executables: seq<Executable>, pinned: Program -> Bytes, faults: seq<SaveFault>)
    ensures var (original, ok) :=
              Saved(before.active, before.original, executables, pinned, faults);
            SavesOnly(original, ok, before, executables, pinned)
  {
    hide Part, SavesOnly, NeedsSaving;
    if executables == [] {
      NoneSaved(before, pinned);
    } else {
      var last := |executables| - 1;
      var front := executables[..last];
      SavesOnlyThese(before, front, pinned, faults);
      OccursOneMore(executables);
      var (saved, ok) := Saved(before.active, before.original, front, pinned, faults);
      SaveOneMore(before, executables, saved, ok, pinned, FaultAt(faults, last));
    }
  }

  lemma NoneSaved(before: Folder, pinned: Program -> Bytes)
    ensures SavesOnly(before.original, true, before, [], pinned)
  {
  }

  lemma SaveOneMore(
    before: Folder, executables: seq<Executable>, saved: Files, ok: bool, pinned: Program -> Bytes,
    fault: SaveFault)
    requires executables != []
    requires SavesOnly(saved, ok, before, executables[..|executables| - 1], pinned)
    ensures var p := executables[|executables| - 1].program;
            var needed := NeedsSaving(before.active, saved, p, pinned, fault.unread);
            && (!ok || !needed ==> SavesOnly(saved, ok, before, executables, pinned))
            && (ok && needed ==>
                  && SavesOnly(saved, false, before, executables, pinned)
                  && SavesOnly(saved[p := before.active[p]], true, before, executables, pinned)
                  && forall length ::
                       SavesOnly(saved[p := Part(before.active[p], length)], false, before,
                                 executables, pinned))
  {
    hide Occurs, Part;
    OccursOneMore(executables);
    var p := executables[|executables| - 1].program;
    if ok && NeedsSaving(before.active, saved, p, pinned, fault.unread) {
      forall length: nat
        ensures SavesOnly(saved[p := Part(before.active[p], length)], false, before, executables,
                          pinned)
      {
        PartIsPrefix(before.active[p], length);
      }
    }
  }

  lemma PartIsPrefix(content: Bytes, length: nat)
    ensures Part(content, length) <= content
  {
  }

  lemma OccursOneMore(files: seq<Executable>)
    requires files != []
    ensures forall p :: Occurs(files, p)
                        <==> Occurs(files[..|files| - 1], p) || files[|files| - 1].program == p
  {
    var last := |files| - 1;
    forall p | Occurs(files[..last], p) ensures Occurs(files, p) {
      var k :| 0 <= k < last && files[..last][k].program == p;
      assert files[k].program == p;
    }
    forall p | Occurs(files, p) && files[last].program != p ensures Occurs(files[..last], p) {
      var k :| 0 <= k < |files| && files[k].program == p;
      assert files[..last][k].program == p;
    }
  }

  // ----- Installing -----

  datatype InstallFaults = InstallFaults(
    stateUnread: bool,
    saves: seq<SaveFault>,
    managed: OverlayFault,
    overlay: OverlayFault,
    stateUnwritten: bool)

  function Recorded(state: StateFile): Record {
    if state.State? then state.saved else Record(None, map[], None)
  }

  /** The same files, with what `from` holds for them. */
  function Copies(files: seq<Executable>, from: Files): (copies: seq<Executable>)
    requires forall p :: Occurs(files, p) ==> p in from
  {
    if files == [] then []
    else
      var last := |files| - 1;
      OccursOneMore(files);
      Copies(files[..last], from) + [Executable(files[last].program, from[files[last].program])]
  }

  lemma {:induction false} CopiesHold(files: seq<Executable>, from: Files)
    requires forall p :: Occurs(files, p) ==> p in from
    ensures |Copies(files, from)| == |files|
    ensures forall p :: p in Contents(Copies(files, from)) <==> Occurs(files, p)
    ensures forall p :: Occurs(files, p) ==> Contents(Copies(files, from))[p] == from[p]
  {
    if files != [] {
      var last := |files| - 1;
      OccursOneMore(files);
      CopiesHold(files[..last], from);
      var copies := Copies(files, from);
      assert copies[..|copies| - 1] == Copies(files[..last], from);
    }
  }

  /** A record of every saved copy that is new. */
  function Copied(record: Record, before: Files, original: Files): Record {
    record.(originals := record.originals + map p | p in original && p !in before :: original[p])
  }

  /** The state file after a finished install. */
  function InstalledRecord(f: Folder, original: Files, executables: seq<Executable>): Record {
    Copied(Recorded(f.state), f.original, original)
      .(selected := Some(Reborn), reborn := Some(Receipt(true, Contents(executables))))
  }

  /** An attempt to install Reborn, step by step. */
  function Installed(
    f: Folder, executables: seq<Executable>, activity: Activity, platform: Platform,
    pinned: Program -> Bytes, faults: InstallFaults): (Folder, bool)
  {
    if !Supports(platform, Reborn) || !activity.ConfirmedStopped?
       || faults.stateUnread || f.state.Refused?
    then (f, false)
    else
      var (original, saved) := Saved(f.active, f.original, executables, pinned, faults.saves);
      var f1 := f.(original := original);
      if !saved then (f1, false)
      else
        var f2 := f1.(reborn := Overlaid(f.reborn, executables, faults.managed));
        if !Completes(executables, faults.managed) then (f2, false)
        else
          ContentsHold(executables);
          var copies := Copies(executables, f2.reborn);
          var f3 := f2.(active := Overlaid(f.active, copies, faults.overlay));
          if !Completes(copies, faults.overlay) || faults.stateUnwritten then (f3, false)
          else (f3.(state := State(InstalledRecord(f, original, executables))), true)
  }

  /** What an attempt to install Reborn may do. */
  ghost predicate Installs(
    after: Folder, ok: bool, before: Folder, executables: seq<Executable>, activity: Activity,
    pinned: Program -> Bytes)
  {
    && SavesOnly(after.original, ok, before, executables, pinned)
    && after.openmohaa == before.openmohaa
    && (!activity.ConfirmedStopped? ==> !ok && after == before)
    && OldOrNew(after.reborn, before.reborn, executables)
    && OldOrNew(after.active, before.active, executables)
    && (after.active != before.active ==>
          && SavesOnly(after.original, true, before, executables, pinned)
          && after.reborn == before.reborn + Contents(executables))
    && (ok ==>
          && after.reborn == before.reborn + Contents(executables)
          && after.active == before.active + Contents(executables)
          && after.Selected() == Some(Reborn)
          && after.Receipted() == Some(Receipt(true, Contents(executables))))
    && (!ok ==> after.state == before.state)
  }

  lemma OverlayOldOrNew(onto: Files, files: seq<Executable>, fault: OverlayFault)
    ensures OldOrNew(Overlaid(onto, files, fault), onto, files)
  {
    hide Contents, OldOrNew, Undone;
    NothingLaid(onto, files);
    LaidOldOrNew(onto, files, |files|);
    assert files[..|files|] == files;
    if fault.Replaces? && fault.n < |files| {
      var done := files[..fault.n];
      UndoneOldOrNew(onto, done, 0, fault.stuck);
      var after := Undone(onto, done, 0, fault.stuck);
      assert AllOldOrNew({after}, onto, done);
      OldOrNewMore({after}, onto, files, fault.n);
      assert after in {after};
    }
  }

  lemma {:induction false} CopiesIn(files: seq<Executable>, from: Files)
    requires forall p :: Occurs(files, p) ==> p in from
    ensures forall file :: file in Copies(files, from) ==>
              Occurs(files, file.program) && file.content == from[file.program]
  {
    if files != [] {
      OccursOneMore(files);
      CopiesIn(files[..|files| - 1], from);
    }
  }

  /** No active program is touched before every original is saved whole and Reborn is kept whole. */
  lemma InstallMeans(
    f: Folder, executables: seq<Executable>, activity: Activity, platform: Platform,
    pinned: Program -> Bytes, faults: InstallFaults)
    ensures var (after, ok) := Installed(f, executables, activity, platform, pinned, faults);
            Installs(after, ok, f, executables, activity, pinned)
  {
    hide Contents, Saved, Overlaid, Copies, Completes, OldOrNew, SavesOnly, Occurs;
    SavesOnlyThese(f, executables, pinned, faults.saves);
    NothingSaved(f, executables, pinned);
    OverlayOldOrNew(f.reborn, executables, faults.managed);
    NothingLaid(f.reborn, executables);
    NothingLaid(f.active, executables);
    if Completes(executables, faults.managed) {
      ActiveOldOrNew(f, executables, faults.managed, faults.overlay);
    }
  }

  lemma NothingSaved(f: Folder, executables: seq<Executable>, pinned: Program -> Bytes)
    ensures SavesOnly(f.original, false, f, executables, pinned)
    ensures forall original :: SavesOnly(original, true, f, executables, pinned) ==>
              SavesOnly(original, false, f, executables, pinned)
  {
    hide Occurs;
  }

  lemma ActiveOldOrNew(
    f: Folder, executables: seq<Executable>, managed: OverlayFault, overlay: OverlayFault)
    requires Completes(executables, managed)
    ensures var reborn := Overlaid(f.reborn, executables, managed);
            && reborn == f.reborn + Contents(executables)
            && (forall p :: Occurs(executables, p) ==> p in reborn)
            && var copies := Copies(executables, reborn);
               && OldOrNew(Overlaid(f.active, copies, overlay), f.active, executables)
               && (Completes(copies, overlay) ==>
                     Overlaid(f.active, copies, overlay) == f.active + Contents(executables))
  {
    hide Contents, Copies, Overlaid, Occurs;
    ContentsHold(executables);
    ContentsIn(executables);
    OverlayKeeps(f.reborn, executables, managed);
    var reborn := Overlaid(f.reborn, executables, managed);
    var copies := Copies(executables, reborn);
    CopiesHold(executables, reborn);
    CopiesIn(executables, reborn);
    OverlayOldOrNew(f.active, copies, overlay);
    OverlayKeeps(f.active, copies, overlay);
    var active := Overlaid(f.active, copies, overlay);
    forall p ensures OldOrNewAt(active, f.active, executables, p) {
      assert OldOrNewAt(active, f.active, copies, p);
      assert Occurs(executables, p) ==> Executable(p, reborn[p]) in executables;
    }
    assert Contents(copies) == Contents(executables);
  }

  // ----- Switching -----

  datatype SwitchFaults = SwitchFaults(
    unread: set<Program>,
    overlay: OverlayFault,
    stateUnread: bool,
    stateUnwritten: bool)

  /** The managed copies among `programs` that are not known to be the active programs already. */
  function Differing(
    managed: Files, active: Files, programs: seq<Program>, unread: set<Program>): seq<Executable>
  {
    if programs == [] then []
    else
      var last := |programs| - 1;
      var p := programs[last];
      Differing(managed, active, programs[..last], unread)
      + if p in managed && (p in unread || p !in active || active[p] != managed[p])
        then [Executable(p, managed[p])] else []
  }

  /** An attempt to activate an engine, step by step. */
  function Switched(
    f: Folder, choice: Choice, activity: Activity, platform: Platform, pinned: Program -> Bytes,
    faults: SwitchFaults): (Folder, bool)
  {
    if !Supports(platform, choice) || !f.Available(choice, pinned) then (f, false)
    else
      var files := Differing(f.Managed(choice), f.active, RETAIL_PROGRAMS, faults.unread);
      if files == [] then (f, true)
      else if !activity.ConfirmedStopped? then (f, false)
      else
        var f1 := f.(active := Overlaid(f.active, files, faults.overlay));
        if !Completes(files, faults.overlay) || faults.stateUnread || f.state.Refused?
           || faults.stateUnwritten
        then (f1, false)
        else (f1.(state := State(Recorded(f.state).(selected := Some(choice)))), true)
  }

  /** What an attempt to activate an engine may do. */
  ghost predicate Activates(after: Folder, ok: bool, before: Folder, choice: Choice, activity: Activity)
  {
    && after.original == before.original && after.reborn == before.reborn
    && after.openmohaa == before.openmohaa
    && (!activity.ConfirmedStopped? ==> after == before)
    && (forall p :: p in after.active ==>
          || (p in before.active && after.active[p] == before.active[p])
          || (p in before.Managed(choice) && after.active[p] == before.Managed(choice)[p]))
    && (forall p :: p in before.active ==> p in after.active)
    && (ok ==> after.active == before.active + before.Managed(choice))
    && (ok && after.active != before.active ==> after.Selected() == Some(choice))
    && (after.state != before.state ==> ok && after.Receipted() == before.Receipted())
  }

  /** `files` are managed copies, and every other managed copy of `programs` is already active. */
  ghost predicate AreDiffering(
    files: seq<Executable>, managed: Files, active: Files, programs: seq<Program>)
  {
    && (forall file :: file in files ==>
          file.program in managed && file.content == managed[file.program])
    && (forall p :: p in Contents(files) ==> p in managed && Contents(files)[p] == managed[p])
    && (forall p :: p in programs && p in managed ==>
          p in Contents(files) || (p in active && active[p] == managed[p]))
  }

  lemma {:induction false} DifferingMeans(
    managed: Files, active: Files, programs: seq<Program>, unread: set<Program>)
    ensures AreDiffering(Differing(managed, active, programs, unread), managed, active, programs)
  {
    hide AreDiffering;
    if programs == [] {
      NoneDiffer(managed, active);
    } else {
      var last := |programs| - 1;
      var front := Differing(managed, active, programs[..last], unread);
      DifferingMeans(managed, active, programs[..last], unread);
      DifferingOneMore(front, managed, active, programs);
      assert front + [] == front;
    }
  }

  lemma NoneDiffer(managed: Files, active: Files)
    ensures AreDiffering([], managed, active, [])
  {
  }

  lemma DifferingOneMore(
    front: seq<Executable>, managed: Files, active: Files, programs: seq<Program>)
    requires programs != []
    requires AreDiffering(front, managed, active, programs[..|programs| - 1])
    ensures var p := programs[|programs| - 1];
            && (p in managed ==>
                  AreDiffering(front + [Executable(p, managed[p])], managed, active, programs))
            && (p !in managed || (p in active && active[p] == managed[p]) ==>
                  AreDiffering(front, managed, active, programs))
  {
    hide Contents;
    var p := programs[|programs| - 1];
    assert programs == programs[..|programs| - 1] + [p];
    if p in managed {
      ContentsOneMore(front, Executable(p, managed[p]));
    }
  }

  /** One more program is looked at. */
  lemma DifferingNext(
    managed: Files, active: Files, front: seq<Program>, p: Program, unread: set<Program>)
    ensures Differing(managed, active, front + [p], unread)
            == Differing(managed, active, front, unread)
               + if p in managed && (p in unread || p !in active || active[p] != managed[p])
                 then [Executable(p, managed[p])] else []
  {
    assert (front + [p])[..|front|] == front;
  }

  lemma ContentsOneMore(front: seq<Executable>, file: Executable)
    ensures Contents(front + [file]) == Contents(front)[file.program := file.content]
  {
    assert (front + [file])[..|front|] == front;
  }

  lemma EveryProgram(p: Program)
    ensures p in RETAIL_PROGRAMS
  {
    var k := match p case Mohaa => 0 case SpearheadProgram => 1 case BreakthroughProgram => 2;
    assert RETAIL_PROGRAMS[k] == p;
  }

  lemma OverlayOfDiffering(managed: Files, active: Files, unread: set<Program>, overlay: OverlayFault)
    ensures var files := Differing(managed, active, RETAIL_PROGRAMS, unread);
            var after := Overlaid(active, files, overlay);
            && (files == [] ==> active + managed == active)
            && (managed == map[] ==> files == [])
            && (Completes(files, overlay) ==> after == active + managed)
            && (forall p :: p in active ==> p in after)
            && (forall p :: p in after ==> || (p in active && after[p] == active[p])
                                           || (p in managed && after[p] == managed[p]))
  {
    hide Contents, Overlaid, Differing, OldOrNew, RETAIL_PROGRAMS;
    var files := Differing(managed, active, RETAIL_PROGRAMS, unread);
    var after := Overlaid(active, files, overlay);
    DifferingMeans(managed, active, RETAIL_PROGRAMS, unread);
    OverlayOldOrNew(active, files, overlay);
    OverlayKeeps(active, files, overlay);
    OldOrNewEverywhere(after, active, files);
    assert files != [] ==> files[0] in files;
    assert Contents([]) == map[] by { NoContents(); }
    forall p: Program ensures p in RETAIL_PROGRAMS { EveryProgram(p); }
    assert active + Contents(files) == active + managed;
    assert active + map[] == active;
    forall p | p in after
      ensures (p in active && after[p] == active[p]) || (p in managed && after[p] == managed[p])
    {
      assert OldOrNewAt(after, active, files, p);
    }
  }

  /** An attempt leaves each active program as it was or as managed, and only when nothing runs. */
  lemma SwitchMeans(
    f: Folder, choice: Choice, activity: Activity, platform: Platform, pinned: Program -> Bytes,
    faults: SwitchFaults)
    ensures var (after, ok) := Switched(f, choice, activity, platform, pinned, faults);
            Activates(after, ok, f, choice, activity)
  {
    hide Overlaid, Differing, Completes, RETAIL_PROGRAMS;
    OverlayOfDiffering(f.Managed(choice), f.active, faults.unread, faults.overlay);
  }

  lemma OldOrNewEverywhere(after: Files, before: Files, files: seq<Executable>)
    requires OldOrNew(after, before, files)
    ensures forall p :: OldOrNewAt(after, before, files, p)
  {
  }

  lemma OverlayKeeps(onto: Files, files: seq<Executable>, fault: OverlayFault)
    ensures forall p :: p in onto ==> p in Overlaid(onto, files, fault)
    ensures Completes(files, fault) ==> Overlaid(onto, files, fault) == onto + Contents(files)
  {
  }

  lemma NoContents()
    ensures Contents([]) == map[]
  {
  }

  // ----- When an attempt succeeds -----

  /** Saving succeeds when nothing stops it, and only stops at a program that has no copy yet. */
  lemma {:induction false} SavingSucceeds(
    f: Folder, executables: seq<Executable>, pinned: Program -> Bytes, faults: seq<SaveFault>)
    ensures !Saved(f.active, f.original, executables, pinned, faults).1 ==>
              exists i :: && 0 <= i < |executables| && !FaultAt(faults, i).stop.GoesOn?
                          && executables[i].program in f.active
                          && executables[i].program !in f.original
  {
    hide Part;
    if executables != [] {
      var last := |executables| - 1;
      SavingSucceeds(f, executables[..last], pinned, faults);
      SavedKeeps(f.active, f.original, executables[..last], pinned, faults);
      if !Saved(f.active, f.original, executables[..last], pinned, faults).1 {
        var i :| && 0 <= i < last && !FaultAt(faults, i).stop.GoesOn?
                 && executables[..last][i].program in f.active
                 && executables[..last][i].program !in f.original;
        assert executables[i] == executables[..last][i];
      } else if !Saved(f.active, f.original, executables, pinned, faults).1 {
        assert !FaultAt(faults, last).stop.GoesOn?;
      }
    }
  }

  /** Only a program that is not Reborn's is saved, unless it could not be read to tell. */
  lemma {:induction false} SavesNoReborn(
    f: Folder, executables: seq<Executable>, pinned: Program -> Bytes, faults: seq<SaveFault>)
    ensures forall p :: p in Saved(f.active, f.original, executables, pinned, faults).0
                        && p !in f.original ==>
              p in f.active && (f.active[p] != pinned(p) || CouldNotRead(executables, faults, p))
  {
    hide Part;
    if executables != [] {
      var last := |executables| - 1;
      SavesNoReborn(f, executables[..last], pinned, faults);
      forall p | CouldNotRead(executables[..last], faults, p)
        ensures CouldNotRead(executables, faults, p)
      {
        var i :| && 0 <= i < last && executables[..last][i].program == p
                 && FaultAt(faults, i).unread;
        assert executables[i].program == p;
      }
    }
  }

  predicate CouldNotRead(executables: seq<Executable>, faults: seq<SaveFault>, p: Program) {
    exists i :: && 0 <= i < |executables| && executables[i].program == p
                && FaultAt(faults, i).unread
  }

  /**
   An install succeeds exactly on Windows, with the game confirmed stopped, when the state can be
   read and written, every original is saved, and both overlays complete.
   */
  lemma InstallSucceeds(
    f: Folder, executables: seq<Executable>, activity: Activity, platform: Platform,
    pinned: Program -> Bytes, faults: InstallFaults)
    ensures Installed(f, executables, activity, platform, pinned, faults).1
            <==> && platform.Windows? && activity.ConfirmedStopped?
                 && !f.state.Refused? && !faults.stateUnread && !faults.stateUnwritten
                 && Saved(f.active, f.original, executables, pinned, faults.saves).1
                 && faults.managed.Replaces? && faults.managed.n >= |executables|
                 && faults.overlay.Replaces? && faults.overlay.n >= |executables|
  {
    hide Saved, Contents, Copies;
    if Completes(executables, faults.managed) {
      ContentsHold(executables);
      CopiesHold(executables, Overlaid(f.reborn, executables, faults.managed));
    }
  }

  /** A finished install records every copy it saved, and keeps what was recorded before. */
  lemma InstallRecords(
    f: Folder, executables: seq<Executable>, activity: Activity, platform: Platform,
    pinned: Program -> Bytes, faults: InstallFaults, p: Program)
    requires Installed(f, executables, activity, platform, pinned, faults).1
    ensures var after := Installed(f, executables, activity, platform, pinned, faults).0;
            && after.state.State?
            && var originals := after.state.saved.originals;
               && (p in after.original && p !in f.original ==>
                     p in originals && originals[p] == after.original[p])
               && (!(p in after.original && p !in f.original) ==>
                     (p in originals
                      <==> f.state.State? && p in f.state.saved.originals)
                     && (p in originals ==> originals[p] == f.state.saved.originals[p]))
  {
    hide Saved, Contents, Copies, Overlaid;
  }

  /** No managed copy differs from the active program, as far as either can be read. */
  predicate AlreadyActive(f: Folder, choice: Choice, unread: set<Program>) {
    var managed := f.Managed(choice);
    forall p :: p in managed ==> p !in unread && p in f.active && f.active[p] == managed[p]
  }

  /**
   A switch succeeds exactly to an engine that this host runs and that is here, when nothing has to
   be replaced, or the game is confirmed stopped, the overlay completes and the state can be read
   and written.
   */
  lemma SwitchSucceeds(
    f: Folder, choice: Choice, activity: Activity, platform: Platform, pinned: Program -> Bytes,
    faults: SwitchFaults)
    ensures var (after, ok) := Switched(f, choice, activity, platform, pinned, faults);
            && (ok <==> && Supports(platform, choice) && f.Available(choice, pinned)
                        && (AlreadyActive(f, choice, faults.unread)
                            || (&& activity.ConfirmedStopped? && !f.state.Refused?
                                && !faults.stateUnread && !faults.stateUnwritten
                                && faults.overlay.Replaces?
                                && faults.overlay.n >= |Differing(f.Managed(choice), f.active,
                                                                  RETAIL_PROGRAMS, faults.unread)|)))
            && (AlreadyActive(f, choice, faults.unread) ==> after == f)
            && (after.state.State? && after.state != f.state ==>
                  after.state.saved.originals
                  == if f.state.State? then f.state.saved.originals else map[])
  {
    hide Differing, Overlaid;
    NoneDiffers(f, choice, faults.unread);
  }

  lemma NoneDiffers(f: Folder, choice: Choice, unread: set<Program>)
    ensures Differing(f.Managed(choice), f.active, RETAIL_PROGRAMS, unread) == []
            <==> AlreadyActive(f, choice, unread)
  {
    var managed := f.Managed(choice);
    NoneDiffersAmong(managed, f.active, RETAIL_PROGRAMS, unread);
    forall p: Program ensures p in RETAIL_PROGRAMS { EveryProgram(p); }
  }

  lemma {:induction false} NoneDiffersAmong(
    managed: Files, active: Files, programs: seq<Program>, unread: set<Program>)
    ensures Differing(managed, active, programs, unread) == []
            <==> forall p :: p in programs && p in managed ==>
                   p !in unread && p in active && active[p] == managed[p]
  {
    if programs != [] {
      var last := |programs| - 1;
      NoneDiffersAmong(managed, active, programs[..last], unread);
      assert programs == programs[..last] + [programs[last]];
    }
  }

  // ----- The folder itself -----

  class EngineFolder {
    var active: Files
    var original: Files
    var reborn: Files
    var openmohaa: bool
    var state: StateFile
    /** Every state the folder has been in: what a crash may leave. */
    ghost var seen: set<Folder>
    const platform: Platform
    /** The content of every program of the one Reborn build that is supported. */
    const pinned: Program -> Bytes

    ghost function Value(): Folder
      reads this
    {
      Folder(active, original, reborn, openmohaa, state)
    }

    constructor (folder: Folder, platform: Platform, pinned: Program -> Bytes)
      ensures Value() == folder && seen == {folder}
      ensures this.platform == platform && this.pinned == pinned
    {
      active, original, reborn := folder.active, folder.original, folder.reborn;
      openmohaa, state, seen := folder.openmohaa, folder.state, {folder};
      this.platform, this.pinned := platform, pinned;
    }

    method ReadState(unread: bool) returns (record: Option<Record>)
      ensures record == if unread || state.Refused? then None else Some(Recorded(state))
    {
      if unread || state.Refused? {
        return None;
      }
      record := Some(if state.State? then state.saved else Record(None, map[], None));
    }

    /** Copy an active program aside, piece by piece, unless a copy is there already. */
    method CopyNoClobber(p: Program, stop: Stop) returns (ok: bool)
      requires p in active
      modifies this`original, this`seen
      ensures old(seen) <= seen && (Value() == old(Value()) || Value() in seen)
      ensures forall t :: t in seen ==>
                t in old(seen) || IsCopying(t, old(Value()), p)
      ensures ok <==> p !in old(original) && stop.GoesOn?
      ensures original == if p in old(original) || stop.NotCreated? then old(original)
                          else if stop.GoesOn? then old(original)[p := active[p]]
                          else old(original)[p := Part(active[p], stop.length)]
    {
      if p in original || stop.NotCreated? {
        return false;
      }
      var content := if stop.GoesOn? then active[p] else Part(active[p], stop.length);
      ghost var before := Value();
      CopyingPart(before, p, if stop.GoesOn? then |active[p]| else stop.length);
      seen := seen + set n: nat | 0 <= n <= |content| ::
        before.(original := before.original[p := Part(active[p], n)]);
      original := original[p := content];
      assert Part(active[p], |content|) == content;
      ok := stop.GoesOn?;
    }

    /** Save every active program of a package that is not known to be Reborn and has no copy yet. */
    method SaveOriginals(executables: seq<Executable>, faults: seq<SaveFault>, record: Record)
      returns (ok: bool, receipts: Record)
      modifies this`original, this`seen
      ensures old(seen) <= seen && (Value() == old(Value()) || Value() in seen)
      ensures AllSaving(seen, old(seen), old(Value()), executables, pinned)
      ensures (original, ok) == Saved(active, old(original), executables, pinned, faults)
      ensures ok ==> receipts == Copied(record, old(original), original)
    {
      hide NeedsSaving, AllSaving, IsCopying, Saved, Part, FaultAt, Copied;
      receipts := record;
      ghost var before := Value();
      NothingSeen(seen, before, executables, pinned);
      NothingCopied(before.original, record, active, executables, pinned, faults);
      for i := 0 to |executables|
        invariant old(seen) <= seen && (Value() == before || Value() in seen)
        invariant Value() == before.(original := original)
        invariant AllSaving(seen, old(seen), before, executables, pinned)
        invariant (original, true) == Saved(active, before.original, executables[..i], pinned, faults)
        invariant receipts == Copied(record, before.original, original)
      {
        var p, fault := executables[i].program, FaultAt(faults, i);
        SavedNext(active, before.original, original, executables, i, pinned, faults);
        if NeedsSaving(active, original, p, pinned, fault.unread) {
          NeededIsThere(active, original, p, pinned, fault.unread);
          CopiedMore(record, before.original, original, p, active[p]);
          ghost var middle, earlier := Value(), seen;
          ok := CopyNoClobber(p, fault.stop);
          CopyingIsSaving(seen, earlier, old(seen), middle, before, executables, i, pinned, faults);
          if !ok {
            return;
          }
          receipts := receipts.(originals := receipts.originals[p := original[p]]);
        }
      }
      assert executables[..|executables|] == executables;
      ok := true;
    }

    /** The first half of an install: save the originals, then keep copies of Reborn's programs. */
    method SaveAndKeep(
      executables: seq<Executable>, faults: InstallFaults, record: Record,
      ghost activity: Activity)
      returns (ok: bool, receipts: Record)
      requires activity.ConfirmedStopped?
      modifies this`original, this`reborn, this`seen
      ensures var (saves, saved) := Saved(active, old(original), executables, pinned, faults.saves);
              && original == saves
              && reborn == (if saved then Overlaid(old(reborn), executables, faults.managed)
                            else old(reborn))
              && (ok <==> saved && Completes(executables, faults.managed))
              && (ok ==> SavesOnly(original, true, old(Value()), executables, pinned))
      ensures ok ==> receipts == Copied(record, old(original), original)
      ensures Value() == old(Value()) || Value() in seen
      ensures AllInstalls(seen, old(seen), old(Value()), executables, activity, pinned)
    {
      hide Saved, Overlaid, Installs, AllSaving, SavesOnly, AllInstalls, RebornStates, Copied;
      hide AllOldOrNew, Completes;
      ghost var before, earlier := Value(), seen;
      SavesOnlyThese(before, executables, pinned, faults.saves);
      ok, receipts := SaveOriginals(executables, faults.saves, record);
      SavingInstalls(seen, earlier, before, executables, activity, pinned);
      if !ok {
        return;
      }
      ghost var passed, current := {}, Value();
      reborn, ok, passed := TransactionalOverlay(reborn, executables, faults.managed);
      KeepingInstalls(seen, earlier, passed, current, before, executables, activity, pinned);
      seen := seen + RebornStates(current, passed);
      assert Value() == current.(reborn := reborn);
    }

    /** Save the originals, keep verified copies of Reborn's programs, and activate them. */
    method InstallReborn(executables: seq<Executable>, activity: Activity, faults: InstallFaults)
      returns (ok: bool)
      modifies this
      ensures (Value(), ok)
              == Installed(old(Value()), executables, activity, platform, pinned, faults)
      ensures Value() == old(Value()) || Value() in seen
      ensures AllInstalls(seen - {Value()}, old(seen), old(Value()), executables, activity, pinned)
    {
      hide Saved, Contents, Copies, Overlaid, Installs, SavesOnly, AllInstalls, ActiveStates;
      hide Copied, Occurs, AllOldOrNew, Completes, Recorded;
      ghost var before, earlier := Value(), seen;
      NothingInstalls(seen, before, executables, activity, pinned);
      if !Supports(platform, Reborn) || !activity.ConfirmedStopped? {
        return false;
      }
      var record := ReadState(faults.stateUnread);
      if record.None? {
        return false;
      }
      var kept, receipts := SaveAndKeep(executables, faults, record.value, activity);
      FewerInstall(seen, {Value()}, earlier, before, executables, activity, pinned);
      if !kept {
        return false;
      }
      ContentsHold(executables);
      OverlayKeeps(before.reborn, executables, faults.managed);
      var copies := Copies(executables, reborn);
      ghost var current, passed := Value(), {};
      active, ok, passed := TransactionalOverlay(active, copies, faults.overlay);
      ReplacingInstalls(seen, earlier, passed, current, before, executables, activity, pinned);
      seen := seen + ActiveStates(current, passed);
      FewerInstall(seen, {Value()}, earlier, before, executables, activity, pinned);
      assert Value() == current.(active := active);
      if !ok || faults.stateUnwritten {
        return false;
      }
      state := State(receipts.(selected := Some(Reborn),
                               reborn := Some(Receipt(true, Contents(executables)))));
      FewerInstall(seen, {Value()}, earlier, before, executables, activity, pinned);
      assert (seen + {Value()}) - {Value()} == seen - {Value()};
      seen := seen + {Value()};
    }

    method FindDiffering(managed: Files, unread: set<Program>) returns (files: seq<Executable>)
      ensures files == Differing(managed, active, RETAIL_PROGRAMS, unread)
    {
      files := [];
      for i := 0 to |RETAIL_PROGRAMS|
        invariant files == Differing(managed, active, RETAIL_PROGRAMS[..i], unread)
      {
        var p := RETAIL_PROGRAMS[i];
        assert RETAIL_PROGRAMS[..i + 1][..i] == RETAIL_PROGRAMS[..i];
        assert files + [] == files;
        if p in managed && (p in unread || p !in active || active[p] != managed[p]) {
          files := files + [Executable(p, managed[p])];
        }
      }
      assert RETAIL_PROGRAMS[..|RETAIL_PROGRAMS|] == RETAIL_PROGRAMS;
    }

    /** Something else replaces, adds or removes active programs. */
    method EditPrograms(programs: Files)
      modifies this`active, this`seen
      ensures Value() == old(Value()).(active := programs) && seen == old(seen) + {Value()}
    {
      active := programs;
      seen := seen + {Value()};
    }

    /** Switch to an engine that is already here; switching nothing needs nothing to be stopped. */
    method Activate(choice: Choice, activity: Activity, faults: SwitchFaults) returns (ok: bool)
      modifies this
      ensures (Value(), ok) == Switched(old(Value()), choice, activity, platform, pinned, faults)
      ensures Value() == old(Value()) || Value() in seen
      ensures AllActivates(seen - {Value()}, old(seen), old(Value()), choice, activity)
    {
      hide Overlaid, Activates, Differing, AllActivates, ActiveStates, Completes, Recorded;
      hide OldOrNew, AllOldOrNew, RETAIL_PROGRAMS, Folder.OriginalInstalled, Folder.RebornInstalled;
      ghost var earlier := seen;
      NothingActivates(seen, Value(), choice, activity);
      var folder := Folder(active, original, reborn, openmohaa, state);
      if !Supports(platform, choice) || !folder.Available(choice, pinned) {
        return false;
      }
      OverlayOfDiffering(folder.Managed(choice), active, faults.unread, faults.overlay);
      if choice.Openmohaa? {
        return true;
      }
      var files := FindDiffering(if choice.Original? then original else reborn, faults.unread);
      if files == [] {
        return true;
      }
      if !activity.ConfirmedStopped? {
        return false;
      }
      ghost var passed;
      active, ok, passed := TransactionalOverlay(active, files, faults.overlay);
      ReplacingActivates(seen, passed, folder, choice, activity, faults.unread);
      seen := seen + ActiveStates(folder, passed);
      FewerActivate(seen, {Value()}, earlier, folder, choice, activity);
      assert Value() == folder.(active := active);
      if !ok {
        return;
      }
      var record := ReadState(faults.stateUnread);
      if record.None? || faults.stateUnwritten {
        return false;
      }
      state := State(record.value.(selected := Some(choice)));
      FewerActivate(seen, {Value()}, earlier, folder, choice, activity);
      assert (seen + {Value()}) - {Value()} == seen - {Value()};
      seen := seen + {Value()};
    }
  }

  // ----- What a crash may leave -----

  /** A saved copy is being written: it has got as far as any part of the program. */
  ghost predicate IsCopying(t: Folder, before: Folder, p: Program) {
    && p in before.active && p in t.original
    && exists n: nat :: t == before.(original := before.original[p := Part(before.active[p], n)])
  }

  lemma CopyingPart(before: Folder, p: Program, limit: nat)
    requires p in before.active
    ensures forall n: nat ::
              IsCopying(before.(original := before.original[p := Part(before.active[p], n)]), before, p)
  {
  }

  /** Saving has changed nothing but saved copies, and those as an unfinished install may. */
  ghost predicate AllSaving(
    seen: set<Folder>, earlier: set<Folder>, before: Folder, executables: seq<Executable>,
    pinned: Program -> Bytes)
  {
    forall t :: t in seen ==>
      || t in earlier
      || (t == before.(original := t.original)
          && SavesOnly(t.original, false, before, executables, pinned))
  }

  lemma NothingSeen(
    seen: set<Folder>, before: Folder, executables: seq<Executable>, pinned: Program -> Bytes)
    ensures AllSaving(seen, seen, before, executables, pinned)
  {
  }

  lemma SavesOnlyMore(
    original: Files, before: Folder, executables: seq<Executable>, n: nat, pinned: Program -> Bytes)
    requires n <= |executables| && SavesOnly(original, false, before, executables[..n], pinned)
    ensures SavesOnly(original, false, before, executables, pinned)
  {
    forall p | Occurs(executables[..n], p) ensures Occurs(executables, p) {
      var k :| 0 <= k < n && executables[..n][k].program == p;
      assert executables[k].program == p;
    }
  }

  lemma CopyingIsSaving(
    seen: set<Folder>, middleSeen: set<Folder>, earlier: set<Folder>, middle: Folder,
    before: Folder, executables: seq<Executable>, i: nat, pinned: Program -> Bytes,
    faults: seq<SaveFault>)
    requires i < |executables| && middle == before.(original := middle.original)
    requires (middle.original, true)
             == Saved(before.active, before.original, executables[..i], pinned, faults)
    requires var p := executables[i].program;
             && NeedsSaving(before.active, middle.original, p, pinned, FaultAt(faults, i).unread)
             && forall t :: t in seen ==> t in middleSeen || IsCopying(t, middle, p)
    requires AllSaving(middleSeen, earlier, before, executables, pinned)
    ensures AllSaving(seen, earlier, before, executables, pinned)
  {
    hide SavesOnly, NeedsSaving, Saved, Part;
    var p, next := executables[i].program, executables[..i + 1];
    assert next[..i] == executables[..i];
    SavesOnlyThese(before, executables[..i], pinned, faults);
    SaveOneMore(before, next, middle.original, true, pinned, FaultAt(faults, i));
    forall t | t in seen && t !in middleSeen
      ensures t == before.(original := t.original)
      ensures SavesOnly(t.original, false, before, executables, pinned)
    {
      var n: nat :| t == middle.(original := middle.original[p := Part(middle.active[p], n)]);
      SavesOnlyMore(t.original, before, executables, i + 1, pinned);
    }
  }

  /** Every state passed through is one an unfinished install may leave. */
  ghost predicate AllInstalls(
    seen: set<Folder>, earlier: set<Folder>, before: Folder, executables: seq<Executable>,
    activity: Activity, pinned: Program -> Bytes)
  {
    forall t :: t in seen ==>
      t in earlier || Installs(t, false, before, executables, activity, pinned)
  }

  ghost function RebornStates(current: Folder, passed: set<Files>): set<Folder> {
    set x | x in passed :: current.(reborn := x)
  }

  ghost function ActiveStates(current: Folder, passed: set<Files>): set<Folder> {
    set x | x in passed :: current.(active := x)
  }

  lemma NothingInstalls(
    seen: set<Folder>, before: Folder, executables: seq<Executable>, activity: Activity,
    pinned: Program -> Bytes)
    ensures AllInstalls(seen - {before}, seen, before, executables, activity, pinned)
  {
  }

  lemma FewerInstall(
    seen: set<Folder>, without: set<Folder>, earlier: set<Folder>, before: Folder,
    executables: seq<Executable>, activity: Activity, pinned: Program -> Bytes)
    requires AllInstalls(seen, earlier, before, executables, activity, pinned)
    ensures AllInstalls(seen - without, earlier, before, executables, activity, pinned)
  {
  }

  lemma SavingInstalls(
    seen: set<Folder>, earlier: set<Folder>, before: Folder, executables: seq<Executable>,
    activity: Activity, pinned: Program -> Bytes)
    requires AllSaving(seen, earlier, before, executables, pinned) && activity.ConfirmedStopped?
    ensures AllInstalls(seen, earlier, before, executables, activity, pinned)
  {
    hide SavesOnly, OldOrNew;
    NothingLaid(before.reborn, executables);
    NothingLaid(before.active, executables);
  }

  lemma KeepingInstalls(
    seen: set<Folder>, earlier: set<Folder>, passed: set<Files>, current: Folder, before: Folder,
    executables: seq<Executable>, activity: Activity, pinned: Program -> Bytes)
    requires AllInstalls(seen, earlier, before, executables, activity, pinned)
    requires AllOldOrNew(passed, before.reborn, executables) && activity.ConfirmedStopped?
    requires current == before.(original := current.original)
    requires SavesOnly(current.original, true, before, executables, pinned)
    ensures AllInstalls(seen + RebornStates(current, passed), earlier, before, executables,
                        activity, pinned)
    ensures forall x :: x in passed ==> current.(reborn := x) in RebornStates(current, passed)
  {
    hide SavesOnly, OldOrNew;
    NothingSaved(before, executables, pinned);
    NothingLaid(before.active, executables);
  }

  lemma ReplacingInstalls(
    seen: set<Folder>, earlier: set<Folder>, passed: set<Files>, current: Folder, before: Folder,
    executables: seq<Executable>, activity: Activity, pinned: Program -> Bytes)
    requires AllInstalls(seen, earlier, before, executables, activity, pinned)
    requires SavesOnly(current.original, true, before, executables, pinned)
    requires current == before.(original := current.original, reborn := current.reborn)
    requires current.reborn == before.reborn + Contents(executables) && activity.ConfirmedStopped?
    requires forall p :: Occurs(executables, p) ==> p in current.reborn
    requires AllOldOrNew(passed, before.active, Copies(executables, current.reborn))
    ensures AllInstalls(seen + ActiveStates(current, passed), earlier, before, executables,
                        activity, pinned)
    ensures forall x :: x in passed ==> current.(active := x) in ActiveStates(current, passed)
  {
    hide SavesOnly, OldOrNew, Contents, Copies;
    NothingSaved(before, executables, pinned);
    RebornOldOrNew(before.reborn, executables);
    CopiesAreNew(passed, before.active, executables, before.reborn);
  }

  /**
   Wherever an install stops or crashes, no original program is lost: it is still active, or it is
   saved, in full unless it was saved before.
   */
  lemma NoOriginalIsLost(
    t: Folder, ok: bool, before: Folder, executables: seq<Executable>, activity: Activity,
    pinned: Program -> Bytes, p: Program)
    requires Installs(t, ok, before, executables, activity, pinned)
    requires p in before.active && before.active[p] != pinned(p)
    ensures || (p in t.active && t.active[p] == before.active[p])
            || (p in t.original
                && t.original[p] == if p in before.original then before.original[p]
                                    else before.active[p])
  {
    hide Contents;
    assert OldOrNewAt(t.active, before.active, executables, p);
    if !(p in t.active && t.active[p] == before.active[p]) {
      var k :| 0 <= k < |executables| && executables[k] == Executable(p, t.active[p]);
      assert Occurs(executables, p) by { SomeOccur(executables, k); }
    }
  }

  lemma RebornOldOrNew(reborn: Files, executables: seq<Executable>)
    ensures OldOrNew(reborn + Contents(executables), reborn, executables)
  {
    hide Contents;
    LaidOldOrNew(reborn, executables, |executables|);
    assert executables[..|executables|] == executables;
  }

  /** The managed copies hold what the package does, so what they replace is replaced by the package. */
  lemma CopiesAreNew(
    passed: set<Files>, active: Files, executables: seq<Executable>, managed: Files)
    requires var reborn := managed + Contents(executables);
             && (forall p :: Occurs(executables, p) ==> p in reborn)
             && AllOldOrNew(passed, active, Copies(executables, reborn))
    ensures AllOldOrNew(passed, active, executables)
  {
    hide Contents, Copies, Occurs;
    var reborn := managed + Contents(executables);
    var copies := Copies(executables, reborn);
    ContentsHold(executables);
    ContentsIn(executables);
    CopiesIn(executables, reborn);
    forall file | file in copies ensures file in executables {
      assert file == Executable(file.program, Contents(executables)[file.program]);
    }
    forall after, p | after in passed ensures OldOrNewAt(after, active, executables, p) {
      assert OldOrNew(after, active, copies);
      assert OldOrNewAt(after, active, copies, p);
    }
  }

  /** Every state passed through is one an unfinished switch may leave. */
  ghost predicate AllActivates(
    seen: set<Folder>, earlier: set<Folder>, before: Folder, choice: Choice, activity: Activity)
  {
    forall t :: t in seen ==> t in earlier || Activates(t, false, before, choice, activity)
  }

  lemma NothingActivates(seen: set<Folder>, before: Folder, choice: Choice, activity: Activity)
    ensures AllActivates(seen - {before}, seen, before, choice, activity)
  {
  }

  lemma FewerActivate(
    seen: set<Folder>, without: set<Folder>, earlier: set<Folder>, before: Folder, choice: Choice,
    activity: Activity)
    requires AllActivates(seen, earlier, before, choice, activity)
    ensures AllActivates(seen - without, earlier, before, choice, activity)
  {
  }

  lemma ReplacingActivates(
    seen: set<Folder>, passed: set<Files>, f: Folder, choice: Choice, activity: Activity, unread: set<Program>)
    requires activity.ConfirmedStopped?
    requires AllOldOrNew(passed, f.active, Differing(f.Managed(choice), f.active, RETAIL_PROGRAMS, unread))
    ensures AllActivates(seen + ActiveStates(f, passed), seen, f, choice, activity)
    ensures forall x :: x in passed ==> f.(active := x) in ActiveStates(f, passed)
  {
    hide Contents, Differing, RETAIL_PROGRAMS;
    var managed := f.Managed(choice);
    var files := Differing(managed, f.active, RETAIL_PROGRAMS, unread);
    DifferingMeans(managed, f.active, RETAIL_PROGRAMS, unread);
    forall x, p | x in passed && p in x
      ensures (p in f.active && x[p] == f.active[p]) || (p in managed && x[p] == managed[p])
    {
      assert OldOrNew(x, f.active, files);
      assert OldOrNewAt(x, f.active, files, p);
    }
  }

  lemma NothingCopied(
    original: Files, record: Record, active: Files, executables: seq<Executable>,
    pinned: Program -> Bytes, faults: seq<SaveFault>)
    ensures Copied(record, original, original) == record
    ensures Saved(active, original, executables[..0], pinned, faults) == (original, true)
  {
    assert record.originals + map[] == record.originals;
  }

  lemma CopiedMore(record: Record, before: Files, original: Files, p: Program, content: Bytes)
    requires p !in original && forall q :: q in before ==> q in original
    ensures var more := Copied(record, before, original);
            Copied(record, before, original[p := content])
            == more.(originals := more.originals[p := content])
  {
  }

  /** Saving goes on with the next program of a package, or stops for good. */
  lemma SavedNext(
    active: Files, original: Files, saved: Files, executables: seq<Executable>, i: nat,
    pinned: Program -> Bytes, faults: seq<SaveFault>)
    requires i < |executables|
    requires (saved, true) == Saved(active, original, executables[..i], pinned, faults)
    ensures forall q :: q in original ==> q in saved
    ensures var p, fault := executables[i].program, FaultAt(faults, i);
            var next := Saved(active, original, executables[..i + 1], pinned, faults);
            if !NeedsSaving(active, saved, p, pinned, fault.unread) then next == (saved, true)
            else
              && (fault.stop.GoesOn? ==> next == (saved[p := active[p]], true))
              && (!fault.stop.GoesOn? ==>
                    Saved(active, original, executables, pinned, faults)
                    == (if fault.stop.NotCreated? then saved
                        else saved[p := Part(active[p], fault.stop.length)], false))
  {
    hide Part;
    assert executables[..i + 1][..i] == executables[..i];
    SavedKeeps(active, original, executables[..i], pinned, faults);
    if !Saved(active, original, executables[..i + 1], pinned, faults).1 {
      SavedStops(active, original, executables, i + 1, pinned, faults);
    }
  }

  lemma {:induction false} SavedKeeps(
    active: Files, original: Files, executables: seq<Executable>, pinned: Program -> Bytes,
    faults: seq<SaveFault>)
    ensures forall q :: q in original ==> q in Saved(active, original, executables, pinned, faults).0
  {
    hide Part;
    if executables != [] {
      SavedKeeps(active, original, executables[..|executables| - 1], pinned, faults);
    }
  }

  lemma NeededIsThere(
    active: Files, original: Files, p: Program, pinned: Program -> Bytes, unread: bool)
    ensures NeedsSaving(active, original, p, pinned, unread) ==> p in active && p !in original
  {
  }

  /** Once saving has stopped, the rest of the package changes nothing. */
  lemma {:induction false} SavedStops(
    active: Files, original: Files, executables: seq<Executable>, n: nat, pinned: Program -> Bytes,
    faults: seq<SaveFault>)
    requires n <= |executables|
    requires !Saved(active, original, executables[..n], pinned, faults).1
    ensures Saved(active, original, executables, pinned, faults)
            == Saved(active, original, executables[..n], pinned, faults)
    decreases |executables|
  {
    hide NeedsSaving;
    if n == |executables| {
      assert executables[..n] == executables;
    } else {
      assert executables[..|executables| - 1][..n] == executables[..n];
      SavedStops(active, original, executables[..|executables| - 1], n, pinned, faults);
    }
  }
}
