/** Any run of installs, switches and outside edits, each with any faults. */
module EngineRuns {
  import opened Common
  import opened Engines

  datatype Host = Host(platform: Platform, pinned: Program -> Bytes)

  datatype Event =
    | Install(executables: seq<Executable>, activity: Activity, installFaults: InstallFaults)
    | Switch(choice: Choice, activity: Activity, switchFaults: SwitchFaults)
    | Edit(active: Files)

  /** What an event makes of the folder, and whether it reports success. */
  function Outcome(f: Folder, e: Event, host: Host): (Folder, bool) {
    match e
    case Install(executables, activity, faults) =>
      Installed(f, executables, activity, host.platform, host.pinned, faults)
    case Switch(choice, activity, faults) =>
      Switched(f, choice, activity, host.platform, host.pinned, faults)
    case Edit(active) => (f.(active := active), true)
  }

  function Run(f: Folder, events: seq<Event>, host: Host): Folder {
    if events == [] then f
    else
      var last := |events| - 1;
      Outcome(Run(f, events[..last], host), events[last], host).0
  }

  /** A state of a run: one between two events, or one an unfinished event may leave. */
  ghost predicate Visited(t: Folder, f: Folder, events: seq<Event>, host: Host, i: nat) {
    && i <= |events|
    && (|| t == Run(f, events[..i], host)
        || (i < |events| && Step(t, false, Run(f, events[..i], host), events[i], host)))
  }

  ghost predicate AllVisited(
    seen: set<Folder>, f: Folder, events: seq<Event>, host: Host, n: nat)
  {
    forall t :: t in seen ==> exists i :: 0 <= i <= n && Visited(t, f, events, host, i)
  }

  /** The folder itself goes through every run, and through nothing but the states of the run. */
  method Replay(f: Folder, events: seq<Event>, host: Host) returns (folder: EngineFolder)
    ensures fresh(folder) && folder.Value() == Run(f, events, host)
    ensures AllVisited(folder.seen, f, events, host, |events|)
  {
    hide Installed, Switched, Installs, Activates, AllVisited, Visited, Run;
    folder := new EngineFolder(f, host.platform, host.pinned);
    RunStarts(f, events, host);
    for i := 0 to |events|
      invariant fresh(folder) && folder.platform == host.platform && folder.pinned == host.pinned
      invariant folder.Value() == Run(f, events[..i], host)
      invariant AllVisited(folder.seen, f, events, host, i)
    {
      StepAt(f, events, host, i);
      ghost var before, earlier := folder.Value(), folder.seen;
      match events[i] {
        case Install(executables, activity, faults) =>
          var _ := folder.InstallReborn(executables, activity, faults);
        case Switch(choice, activity, faults) =>
          var _ := folder.Activate(choice, activity, faults);
        case Edit(active) =>
          folder.EditPrograms(active);
      }
      StepVisits(folder.seen, earlier, folder.Value(), f, events, host, i);
    }
    assert events[..|events|] == events;
  }

  lemma RunStarts(f: Folder, events: seq<Event>, host: Host)
    ensures Run(f, events[..0], host) == f && AllVisited({f}, f, events, host, 0)
  {
    assert Visited(f, f, events, host, 0);
  }

  lemma StepVisits(
    seen: set<Folder>, earlier: set<Folder>, after: Folder, f: Folder, events: seq<Event>,
    host: Host, i: nat)
    requires i < |events| && AllVisited(earlier, f, events, host, i)
    requires after == Run(f, events[..i + 1], host)
    requires forall t :: t in seen ==>
               || t in earlier || t == after
               || Step(t, false, Run(f, events[..i], host), events[i], host)
    ensures AllVisited(seen, f, events, host, i + 1)
  {
    hide Run, Step;
    forall t | t in seen ensures exists k :: 0 <= k <= i + 1 && Visited(t, f, events, host, k) {
      if t in earlier {
        var k :| 0 <= k <= i && Visited(t, f, events, host, k);
      } else if t == after {
        assert Visited(t, f, events, host, i + 1);
      } else {
        assert Visited(t, f, events, host, i);
      }
    }
  }

  /** What the outcome of one event may be. */
  ghost predicate Step(after: Folder, ok: bool, before: Folder, e: Event, host: Host) {
    match e
    case Install(executables, activity, _) =>
      Installs(after, ok, before, executables, activity, host.pinned)
    case Switch(choice, activity, _) => Activates(after, ok, before, choice, activity)
    case Edit(active) => ok && after == before.(active := active)
  }

  /** The folder after the first `i` events, and what the next one makes of it. */
  lemma StepAt(f: Folder, events: seq<Event>, host: Host, i: nat)
    requires i < |events|
    ensures var (after, ok) := Outcome(Run(f, events[..i], host), events[i], host);
            && after == Run(f, events[..i + 1], host)
            && Step(after, ok, Run(f, events[..i], host), events[i], host)
  {
    hide Installed, Switched, Installs, Activates;
    var before := Run(f, events[..i], host);
    assert events[..i + 1][..i] == events[..i];
    match events[i]
    case Install(executables, activity, faults) =>
      InstallMeans(before, executables, activity, host.platform, host.pinned, faults);
    case Switch(choice, activity, faults) =>
      SwitchMeans(before, choice, activity, host.platform, host.pinned, faults);
    case Edit(_) =>
  }

  /**
   While the game is not confirmed stopped, and nobody else edits the programs, no run of installs
   and switches changes anything at all in the folder.
   */
  lemma {:induction false} NothingChangesWhileRunning(
    f: Folder, events: seq<Event>, host: Host, i: nat, j: nat)
    requires i <= j <= |events|
    requires forall k :: i <= k < j ==> !events[k].Edit? && !events[k].activity.ConfirmedStopped?
    ensures Run(f, events[..j], host) == Run(f, events[..i], host)
    decreases j
  {
    hide Run;
    if i < j {
      NothingChangesWhileRunning(f, events, host, i, j - 1);
      StepAt(f, events, host, j - 1);
    }
  }

  /** A saved original is never replaced and never lost. */
  lemma {:induction false} SavedOriginalsStay(
    f: Folder, events: seq<Event>, host: Host, i: nat, j: nat, p: Program)
    requires i <= j <= |events| && p in Run(f, events[..i], host).original
    ensures var before, after := Run(f, events[..i], host), Run(f, events[..j], host);
            p in after.original && after.original[p] == before.original[p]
    decreases j
  {
    hide Run, Outcome, Step;
    if i < j {
      SavedOriginalsStay(f, events, host, i, j - 1, p);
      StepAt(f, events, host, j - 1);
      var before := Run(f, events[..j - 1], host);
      var (after, ok) := Outcome(before, events[j - 1], host);
      StepKeepsOriginals(after, ok, before, events[j - 1], host);
    }
  }

  lemma StepKeepsOriginals(after: Folder, ok: bool, before: Folder, e: Event, host: Host)
    requires Step(after, ok, before, e, host)
    ensures forall p :: p in before.original ==>
              p in after.original && after.original[p] == before.original[p]
  {
  }

  /** Event `i` of a run reports success. */
  ghost predicate Succeeds(f: Folder, events: seq<Event>, host: Host, i: nat)
    requires i < |events|
  {
    Outcome(Run(f, events[..i], host), events[i], host).1
  }

  /**
   Reborn is installed at some point of a run and Original is activated at any later one, whatever
   happens in between. A program that was there and was not Reborn's then is back byte for byte
   exactly when it had no saved copy before the install, or the same one.
   */
  lemma OriginalComesBack(
    f: Folder, events: seq<Event>, host: Host, i: nat, j: nat, p: Program)
    requires i < j < |events| && Succeeds(f, events, host, i) && Succeeds(f, events, host, j)
    requires events[i].Install? && Occurs(events[i].executables, p)
    requires events[j].Switch? && events[j].choice.Original?
    requires var before := Run(f, events[..i], host);
             p in before.active && before.active[p] != host.pinned(p)
    ensures var before, after := Run(f, events[..i], host), Run(f, events[..j + 1], host);
            && p in after.active
            && (after.active[p] == before.active[p]
                <==> (p in before.original ==> before.original[p] == before.active[p]))
  {
    hide Run, Installed, Switched, Occurs;
    StepAt(f, events, host, i);
    StepAt(f, events, host, j);
    SavedOriginalsStay(f, events, host, i + 1, j, p);
  }

  /** Switching back leaves a program without a saved copy as it is, whatever is reported. */
  lemma UnsavedProgramStays(f: Folder, events: seq<Event>, host: Host, j: nat, p: Program)
    requires j < |events| && events[j].Switch? && events[j].choice.Original?
    requires p !in Run(f, events[..j], host).original
    ensures var before, after := Run(f, events[..j], host), Run(f, events[..j + 1], host);
            && (p in after.active <==> p in before.active)
            && (p in after.active ==> after.active[p] == before.active[p])
  {
    hide Run, Switched;
    StepAt(f, events, host, j);
  }

  // ----- A copy cut short is kept -----

  function Retail(content: Bytes): Folder {
    Folder(map[Mohaa := content], map[], map[], false, NoState)
  }

  const ALL_WELL: OverlayFault := Replaces(1, {})

  /** One install cut short while saving, the same install again, and the switch back. */
  function RetriedInstall(package: seq<Executable>): seq<Event> {
    var well := InstallFaults(false, [], ALL_WELL, ALL_WELL, false);
    [Install(package, ConfirmedStopped, well.(saves := [SaveFault(false, After(1))])),
     Install(package, ConfirmedStopped, well),
     Switch(Original, ConfirmedStopped, SwitchFaults({}, ALL_WELL, false, false))]
  }

  /**
   A copy aside that fails part-way is kept as the original: retrying the install and switching
   back then leaves a truncated program, although nothing else touched it and both succeed.
   */
  lemma InterruptedSaveIsRestored(host: Host)
    requires host.platform.Windows? && host.pinned(Mohaa) != [1, 2]
    ensures var events := RetriedInstall([Executable(Mohaa, [])]);
            && Succeeds(Retail([1, 2]), events, host, 1)
            && Succeeds(Retail([1, 2]), events, host, 2)
            && Run(Retail([1, 2]), events, host).active == map[Mohaa := [1]]
  {
    hide Installed, Switched;
    var package := [Executable(Mohaa, [])];
    var events := RetriedInstall(package);
    CutShort(package, host);
    Retried(package, host);
    SwitchedBack(package, host);
    assert events[..0] == [] && events[..1][..0] == [];
    assert events[..1] == [events[0]] && events[..2][..1] == events[..1] && events[..3] == events;
    assert events[..3][..2] == events[..2];
    assert Run(Retail([1, 2]), events[..1], host) == Interrupted();
    assert Run(Retail([1, 2]), events[..2], host) == Reinstalled();
  }

  function Interrupted(): Folder {
    Retail([1, 2]).(original := map[Mohaa := [1]])
  }

  function Reinstalled(): Folder {
    Folder(map[Mohaa := []], map[Mohaa := [1]], map[Mohaa := []], false,
           State(Record(Some(Reborn), map[], Some(Receipt(true, map[Mohaa := []])))))
  }

  lemma CutShort(package: seq<Executable>, host: Host)
    requires package == [Executable(Mohaa, [])]
    requires host.platform.Windows? && host.pinned(Mohaa) != [1, 2]
    ensures Outcome(Retail([1, 2]), RetriedInstall(package)[0], host) == (Interrupted(), false)
  {
    assert package[..0] == [];
    var faults := [SaveFault(false, After(1))];
    var active: Files := map[Mohaa := [1, 2]];
    var cut: Files := map[Mohaa := [1]];
    assert Saved(active, map[], [], host.pinned, faults) == (map[], true);
    assert NeedsSaving(active, map[], Mohaa, host.pinned, false);
    assert Part(active[Mohaa], 1) == [1];
    assert Saved(active, map[], package, host.pinned, faults).0 == cut;
  }

  lemma PackageIsCopied(package: seq<Executable>, from: Files)
    requires package == [Executable(Mohaa, [])] && from == map[Mohaa := []]
    ensures forall p :: Occurs(package, p) ==> p in from
    ensures Copies(package, from) == package
  {
    assert package[..0] == [];
    forall p | Occurs(package, p) ensures p in from {}
    assert Copies(package[..0], from) == [];
  }

  lemma Retried(package: seq<Executable>, host: Host)
    requires package == [Executable(Mohaa, [])] && host.platform.Windows?
    ensures Outcome(Interrupted(), RetriedInstall(package)[1], host) == (Reinstalled(), true)
  {
    hide Copies;
    assert package[..0] == [];
    var original: Files := map[Mohaa := [1]];
    assert Saved(Interrupted().active, original, [], host.pinned, []) == (original, true);
    assert Saved(Interrupted().active, original, package, host.pinned, []) == (original, true);
    assert Contents(package) == map[Mohaa := []];
    assert Overlaid(map[], package, ALL_WELL) == map[Mohaa := []];
    PackageIsCopied(package, map[Mohaa := []]);
    assert Overlaid(map[Mohaa := [1, 2]], package, ALL_WELL) == map[Mohaa := []];
    assert InstalledRecord(Interrupted(), original, package).originals == map[];
  }

  lemma SwitchedBack(package: seq<Executable>, host: Host)
    requires package == [Executable(Mohaa, [])] && host.platform.Windows?
    ensures var (after, ok) := Outcome(Reinstalled(), RetriedInstall(package)[2], host);
            ok && after.active == map[Mohaa := [1]]
  {
    hide Differing, Overlaid, RETAIL_PROGRAMS;
    var f := Reinstalled();
    var saved := Executable(Mohaa, [1]);
    assert Mohaa in RETAIL_PROGRAMS by { EveryProgram(Mohaa); }
    assert f.Available(Original, host.pinned);
    OnlyMohaaDiffers(f, saved);
  }

  lemma OnlyMohaaDiffers(f: Folder, saved: Executable)
    requires f == Reinstalled() && saved == Executable(Mohaa, [1])
    ensures Differing(f.original, f.active, RETAIL_PROGRAMS, {}) == [saved]
    ensures Overlaid(f.active, [saved], ALL_WELL) == map[Mohaa := [1]]
  {
    hide Differing, Contents;
    DifferingNone(f.original, f.active, {});
    DifferingNext(f.original, f.active, [], Mohaa, {});
    DifferingNext(f.original, f.active, [Mohaa], SpearheadProgram, {});
    DifferingNext(f.original, f.active, [Mohaa, SpearheadProgram], BreakthroughProgram, {});
    ProgramsInOrder();
    NoContents();
    ContentsOneMore([], saved);
    assert [] + [saved] == [saved];
  }

  lemma DifferingNone(managed: Files, active: Files, unread: set<Program>)
    ensures Differing(managed, active, [], unread) == []
  {
  }

  lemma ProgramsInOrder()
    ensures [] + [Mohaa] == [Mohaa]
    ensures [Mohaa] + [SpearheadProgram] == [Mohaa, SpearheadProgram]
    ensures RETAIL_PROGRAMS == [Mohaa, SpearheadProgram] + [BreakthroughProgram]
  {
  }
}
