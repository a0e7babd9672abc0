/** What a server proves about local content, and the gate a launch has to pass. */
module Joining {
  import opened Common
  import opened Discovery
  import opened MapFiles
  import opened MapIndexes
  import opened Preflight

  /** What the map catalogue answered; one outcome for each map it could look up. */
  datatype ResolutionOutcome = Exact(record: nat) | ChoiceRequired(records: seq<nat>) | NothingOffered

  datatype ResolutionPass = ResolutionPass(outcomes: seq<ResolutionOutcome>, nonResults: seq<string>)

  datatype CompatibilityState =
    | AllPresent
    | NeedsMaps(count: nat, shoppingList: Option<ResolutionPass>)
    | NoSource(count: nat)
    | CantTell

  datatype CurrentMapReadiness = Playable | Missing | Unknown

  datatype Assessment = Assessment(
    state: CompatibilityState, preflight: Option<Report>, currentMap: CurrentMapReadiness)

  datatype Refusal = DroppedOnArrival | NotConfirmed

  datatype RefusalReason = CurrentMapMissing | Unconfirmed

  predicate ConclusivelyNothing(resolution: Option<ResolutionPass>, count: nat) {
    && resolution.Some? && resolution.value.nonResults == []
    && |resolution.value.outcomes| == count
    && forall i :: 0 <= i < count ==> resolution.value.outcomes[i].NothingOffered?
  }

  function Classify(preflight: Option<Report>, resolution: Option<ResolutionPass>): CompatibilityState {
    if preflight.None? then CantTell
    else
      match preflight.value.verdict
      case Compatible => AllPresent
      case ProblemsFound(absent, checksumMismatches) =>
        var count := absent + checksumMismatches;
        if ConclusivelyNothing(resolution, count) then NoSource(count)
        else NeedsMaps(count, resolution)
  }

  /** A map name the server names and that has a key. */
  predicate Usable(name: Option<string>) {
    name.Some? && KeyOf(name.value).Some?
  }

  /** The rotation, and the map running now even when the rotation is silent about it. */
  function CheckedMaps(server: Server): seq<string> {
    server.rotation + if Usable(server.currentMap) then [server.currentMap.value] else []
  }

  function Published(server: Server): Option<PublishedChecksum> {
    if server.currentMap.Some? && server.mapChecksum.Some?
    then Some(PublishedChecksum(server.currentMap.value, server.mapChecksum.value))
    else None
  }

  function ClassifyServer(maps: Maps, server: Server, resolution: Option<ResolutionPass>): Assessment {
    var checked := CheckedMaps(server);
    if checked == [] then Assessment(Classify(None, resolution), None, Unknown)
    else
      var report := CheckReport(maps, checked, Published(server));
      Assessment(
        Classify(if server.rotation == [] then None else Some(report), resolution),
        Some(report),
        Readiness(Some(report), server.currentMap))
  }

  function Readiness(preflight: Option<Report>, currentMap: Option<string>): CurrentMapReadiness {
    if preflight.None? || !Usable(currentMap) then Unknown
    else FirstWithKey(preflight.value.maps, KeyOf(currentMap.value))
  }

  function FirstWithKey(results: seq<MapResult>, key: Option<string>): CurrentMapReadiness {
    if results == [] then Unknown
    else if KeyOf(results[0].name) != key then FirstWithKey(results[1..], key)
    else if results[0].status.Present? then Playable
    else Missing
  }

  function LaunchRefusal(assessment: Assessment, acceptIncomplete: bool): Option<Refusal> {
    if assessment.state.AllPresent? then None
    else if assessment.currentMap.Missing? then Some(DroppedOnArrival)
    else if acceptIncomplete then None
    else Some(NotConfirmed)
  }

  function ReasonFor(assessment: Assessment): RefusalReason {
    if assessment.currentMap.Missing? then CurrentMapMissing else Unconfirmed
  }

  // ----- The map running now is always judged -----

  lemma {:induction false} FoundWithKey(results: seq<MapResult>, k: nat, key: Option<string>)
    requires k < |results| && KeyOf(results[k].name) == key
    requires forall l :: 0 <= l < |results| && KeyOf(results[l].name) == key ==>
               results[l].status == results[k].status
    ensures FirstWithKey(results, key) == if results[k].status.Present? then Playable else Missing
  {
    hide KeyOf;
    if KeyOf(results[0].name) != key {
      FoundWithKey(results[1..], k - 1, key);
    }
  }

  /** Names with one key are given one status. */
  lemma SameKeySameStatus(maps: Maps, published: Option<PublishedChecksum>, a: string, b: string)
    requires KeyOf(a) == KeyOf(b)
    ensures ResultFor(maps, published, a).status == ResultFor(maps, published, b).status
  {
  }

  /** The server names the map it runs, by a name that has a key. */
  predicate NamesItsMap(server: Server) {
    server.currentMap.Some? && KeyOf(server.currentMap.value).Some?
  }

  /** A name a server publishes is present, as far as the index and the server can tell. */
  predicate Present(maps: Maps, server: Server, name: string) {
    ResultFor(maps, Published(server), name).status.Present?
  }

  /** Readiness is the status of the current map itself, whatever spelling the rotation used. */
  lemma ReadinessIsStatus(maps: Maps, server: Server, resolution: Option<ResolutionPass>)
    ensures ClassifyServer(maps, server, resolution).currentMap
            == if !NamesItsMap(server) then Unknown
               else if Present(maps, server, server.currentMap.value) then Playable else Missing
  {
    hide KeyOf, CheckReport, ResultFor, Firsts, Published;
    if Usable(server.currentMap) {
      var checked, current := CheckedMaps(server), server.currentMap.value;
      var report := CheckReport(maps, checked, Published(server));
      var i := |server.rotation|;
      assert checked[i] == current;
      EveryKeyOnce(checked, i);
      var k :| 0 <= k < |Firsts(checked)| && KeyOf(checked[Firsts(checked)[k]]) == KeyOf(current);
      forall l | 0 <= l < |report.maps| && KeyOf(checked[Firsts(checked)[l]]) == KeyOf(current)
        ensures report.maps[l].status == ResultFor(maps, Published(server), current).status
      {
        SameKeySameStatus(maps, Published(server), checked[Firsts(checked)[l]], current);
      }
      ResultNames(maps, Published(server), checked);
      FoundWithKey(report.maps, k, KeyOf(current));
    }
  }

  lemma ResultNames(maps: Maps, published: Option<PublishedChecksum>, names: seq<string>)
    ensures forall l :: 0 <= l < |Firsts(names)| ==>
              CheckReport(maps, names, published).maps[l].name == names[Firsts(names)[l]]
  {
    hide KeyOf, CheckReport;
  }

  /** Readiness is Unknown exactly when the server names no usable current map. */
  lemma UnknownIsSilence(maps: Maps, server: Server, resolution: Option<ResolutionPass>)
    ensures ClassifyServer(maps, server, resolution).currentMap.Unknown?
            <==> server.currentMap.None? || KeyOf(server.currentMap.value).None?
  {
    ReadinessIsStatus(maps, server, resolution);
  }

  /** The engine finds a map of this name, and the checksum the server published is not another. */
  predicate EnginePlays(dirs: seq<Directory>, server: Server, name: string)
    requires AllScannable(dirs)
  {
    var key := KeyOf(name);
    && key.Some? && EngineLookup(dirs, key.value) != []
    && (server.mapChecksum.Some? && server.currentMap.Some? && KeyOf(server.currentMap.value) == key
        ==> EngineLookup(dirs, key.value)[0].provider.header.checksum == server.mapChecksum.value)
  }

  /** Over a scanned index, what is present is what the engine plays. */
  lemma PresentMeans(maps: Maps, dirs: seq<Directory>, server: Server, name: string)
    requires AllScannable(dirs) && Scanned(maps, dirs)
    ensures Present(maps, server, name) <==> EnginePlays(dirs, server, name)
  {
    hide KeyOf, EngineLookup, ResultFor;
    StatusMeans(maps, dirs, Published(server), name);
  }

  /** Over a scanned index, Playable and Missing are facts about what the engine would load. */
  lemma ReadinessMeans(
    maps: Maps, dirs: seq<Directory>, server: Server, resolution: Option<ResolutionPass>)
    requires AllScannable(dirs) && Scanned(maps, dirs) && NamesItsMap(server)
    ensures ClassifyServer(maps, server, resolution).currentMap
            == if EnginePlays(dirs, server, server.currentMap.value) then Playable else Missing
  {
    hide KeyOf, ClassifyServer, Present, EnginePlays;
    ReadinessIsStatus(maps, server, resolution);
    PresentMeans(maps, dirs, server, server.currentMap.value);
  }

  // ----- The gate -----

  /** A rotation is published, and each name of it, and the map running now, is present. */
  predicate FullyPresent(maps: Maps, server: Server) {
    && server.rotation != []
    && (forall name :: name in server.rotation ==> Present(maps, server, name))
    && (NamesItsMap(server) ==> Present(maps, server, server.currentMap.value))
  }

  /** The invariant the gate relies on: an assessment of a published rotation covers every name. */
  lemma AllPresentMeans(maps: Maps, server: Server, resolution: Option<ResolutionPass>)
    ensures ClassifyServer(maps, server, resolution).state.AllPresent? <==> FullyPresent(maps, server)
  {
    hide KeyOf, CheckReport, ResultFor, Readiness;
    var checked, published := CheckedMaps(server), Published(server);
    VerdictMeans(maps, checked, published);
    if forall i :: 0 <= i < |checked| && !Repeats(checked, i) ==>
         ResultFor(maps, published, checked[i]).status.Present?
    {
      forall i | 0 <= i < |checked| ensures ResultFor(maps, published, checked[i]).status.Present? {
        FirstIsPresent(maps, published, checked, i);
      }
    }
    CheckedNames(server);
    assert forall i :: 0 <= i < |checked| ==> checked[i] in checked;
    assert forall name :: name in checked ==> exists i :: 0 <= i < |checked| && checked[i] == name;
  }

  /** What is checked is the rotation and the current map, and nothing else. */
  lemma CheckedNames(server: Server)
    ensures forall name :: name in CheckedMaps(server)
                           <==> name in server.rotation
                                || (NamesItsMap(server) && name == server.currentMap.value)
  {
    hide KeyOf;
  }

  lemma {:induction false} FirstIsPresent(
    maps: Maps, published: Option<PublishedChecksum>, names: seq<string>, i: nat)
    requires i < |names|
    requires forall j :: 0 <= j < |names| && !Repeats(names, j) ==>
               ResultFor(maps, published, names[j]).status.Present?
    ensures ResultFor(maps, published, names[i]).status.Present?
  {
    hide KeyOf, ResultFor;
    if Repeats(names, i) {
      var j :| 0 <= j < i && KeyOf(names[j]) == KeyOf(names[i]);
      FirstIsPresent(maps, published, names, j);
      SameKeySameStatus(maps, published, names[i], names[j]);
    }
  }

  /**
   Exactly when a launch goes ahead, and that the reason reported for a refusal is the one it was
   refused for. Consent never overrides a missing current map.
   */
  lemma LaunchPermitted(
    maps: Maps, server: Server, resolution: Option<ResolutionPass>, acceptIncomplete: bool)
    ensures var assessment := ClassifyServer(maps, server, resolution);
            var refusal := LaunchRefusal(assessment, acceptIncomplete);
            var missing := NamesItsMap(server) && !Present(maps, server, server.currentMap.value);
            && (refusal.None? <==> !missing && (acceptIncomplete || FullyPresent(maps, server)))
            && (refusal.Some? ==>
                  && refusal.value == (if missing then DroppedOnArrival else NotConfirmed)
                  && ReasonFor(assessment) == (if missing then CurrentMapMissing else Unconfirmed))
  {
    hide KeyOf, ClassifyServer, ResultFor;
    AllPresentMeans(maps, server, resolution);
    ReadinessIsStatus(maps, server, resolution);
  }

  /**
   From game folders to launch. With an index scanned from `dirs`, and whatever the catalogue
   answered, a launch goes ahead exactly when the engine itself plays the map the server runs, if it
   names one, and either the player accepts an incomplete check or the engine plays every map of a
   published rotation.
   */
  lemma LaunchGoesAhead(
    maps: Maps, dirs: seq<Directory>, server: Server, resolution: Option<ResolutionPass>,
    acceptIncomplete: bool)
    requires AllScannable(dirs) && Scanned(maps, dirs)
    ensures LaunchRefusal(ClassifyServer(maps, server, resolution), acceptIncomplete).None?
            <==> && (NamesItsMap(server) ==>
                       EnginePlays(dirs, server, server.currentMap.value))
                 && (acceptIncomplete
                     || (server.rotation != []
                         && forall name :: name in server.rotation ==>
                              EnginePlays(dirs, server, name)))
  {
    hide KeyOf, ClassifyServer, LaunchRefusal, EnginePlays, Present;
    LaunchPermitted(maps, server, resolution, acceptIncomplete);
    forall name ensures Present(maps, server, name) <==> EnginePlays(dirs, server, name) {
      PresentMeans(maps, dirs, server, name);
    }
  }

  /**
   A launch that goes ahead onto a server that names its map finds that map, in the copy the engine
   itself loads, with the checksum the server published.
   */
  lemma LaunchSurvivesArrival(
    maps: Maps, dirs: seq<Directory>, server: Server, resolution: Option<ResolutionPass>,
    acceptIncomplete: bool)
    requires AllScannable(dirs) && Scanned(maps, dirs) && NamesItsMap(server)
    requires LaunchRefusal(ClassifyServer(maps, server, resolution), acceptIncomplete).None?
    ensures var lookup := EngineLookup(dirs, KeyOf(server.currentMap.value).value);
            && lookup != []
            && (server.mapChecksum.Some? ==>
                  lookup[0].provider.header.checksum == server.mapChecksum.value)
  {
    hide KeyOf, ClassifyServer, LaunchRefusal, EngineLookup;
    LaunchGoesAhead(maps, dirs, server, resolution, acceptIncomplete);
  }

  // ----- What is needed -----

  /** The keys of the published names that are not present; a key counts once. */
  function NeededKeys(maps: Maps, server: Server): set<string> {
    (set name | name in server.rotation && KeyOf(name).Some? && !Present(maps, server, name) ::
       KeyOf(name).value)
    + if NamesItsMap(server) && !Present(maps, server, server.currentMap.value)
      then {KeyOf(server.currentMap.value).value} else {}
  }

  /** The names without a key, each of which is needed for itself. */
  function Keyless(names: seq<string>): nat {
    if names == [] then 0
    else
      Keyless(names[..|names| - 1]) + if KeyOf(names[|names| - 1]).None? then 1 else 0
  }

  function NeededAmong(
    maps: Maps, names: seq<string>, published: Option<PublishedChecksum>): set<string>
  {
    set name | name in names && KeyOf(name).Some?
               && !ResultFor(maps, published, name).status.Present? :: KeyOf(name).value
  }

  lemma {:induction false} ProblemsAreNeeded(
    results: seq<MapResult>, maps: Maps, names: seq<string>, published: Option<PublishedChecksum>)
    requires ResultsOf(results, maps, names, published)
    ensures Absents(results) + Mismatches(results)
            == |NeededAmong(maps, names, published)| + Keyless(names)
    decreases |names|
  {
    hide KeyOf, ResultFor, NeededAmong;
    if names == [] {
      NothingNeeded(maps, published);
    } else {
      var last := |names| - 1;
      var front, next := names[..last], ResultFor(maps, published, names[last]);
      NeededNext(maps, names, published);
      if Repeats(names, last) {
        ProblemsAreNeeded(results, maps, front, published);
      } else {
        var before := results[..|results| - 1];
        assert results == before + [next];
        ProblemsAreNeeded(before, maps, front, published);
        CountsOfNext(before, next);
      }
    }
  }

  lemma NothingNeeded(maps: Maps, published: Option<PublishedChecksum>)
    ensures NeededAmong(maps, [], published) == {}
  {
  }

  /** A repeated name needs nothing new, and a name without a key is never present. */
  lemma NeededNext(maps: Maps, names: seq<string>, published: Option<PublishedChecksum>)
    requires names != []
    ensures var last := |names| - 1;
            var before, after := NeededAmong(maps, names[..last], published),
                                 NeededAmong(maps, names, published);
            var status := ResultFor(maps, published, names[last]).status;
            && (Repeats(names, last) ==> after == before && KeyOf(names[last]).Some?)
            && (KeyOf(names[last]).None? ==> after == before && status.Absent?)
            && (!Repeats(names, last) && KeyOf(names[last]).Some? ==>
                  |after| == |before| + if status.Present? then 0 else 1)
  {
    hide *;
    var last := |names| - 1;
    var before := NeededAmong(maps, names[..last], published);
    KeylessIsAbsent(maps, published, names[last]);
    NeededOneMore(maps, names[..last], names[last], published);
    assert names == names[..last] + [names[last]];
    assert before + {} == before;
    if KeyOf(names[last]).Some? {
      NeededBefore(maps, names, last, published);
      WithKey(before, KeyOf(names[last]).value);
    } else {
      KeylessRepeatsNothing(names, last);
    }
  }

  lemma WithKey(keys: set<string>, key: string)
    ensures if key in keys then keys + {key} == keys else |keys + {key}| == |keys| + 1
  {
  }

  lemma KeylessRepeatsNothing(names: seq<string>, i: nat)
    requires i < |names| && KeyOf(names[i]).None?
    ensures !Repeats(names, i)
  {
  }

  lemma NeededOneMore(
    maps: Maps, names: seq<string>, name: string, published: Option<PublishedChecksum>)
    ensures NeededAmong(maps, names + [name], published)
            == NeededAmong(maps, names, published)
               + if KeyOf(name).Some? && !ResultFor(maps, published, name).status.Present?
                 then {KeyOf(name).value} else {}
  {
    hide KeyOf, ResultFor;
  }

  /** A key is needed already exactly when it comes up again and is not present. */
  lemma NeededBefore(maps: Maps, names: seq<string>, i: nat, published: Option<PublishedChecksum>)
    requires i < |names| && KeyOf(names[i]).Some?
    ensures KeyOf(names[i]).value in NeededAmong(maps, names[..i], published)
            <==> Repeats(names, i) && !ResultFor(maps, published, names[i]).status.Present?
  {
    hide KeyOf, ResultFor;
    var front := names[..i];
    forall name | name in front && KeyOf(name) == KeyOf(names[i])
      ensures Repeats(names, i)
      ensures ResultFor(maps, published, name).status == ResultFor(maps, published, names[i]).status
    {
      var j :| 0 <= j < i && names[j] == name;
      SameKeySameStatus(maps, published, name, names[i]);
    }
    if Repeats(names, i) {
      var j :| 0 <= j < i && KeyOf(names[j]) == KeyOf(names[i]);
      assert front[j] in front;
    }
  }

  lemma KeylessIsAbsent(maps: Maps, published: Option<PublishedChecksum>, name: string)
    ensures KeyOf(name).None? ==> ResultFor(maps, published, name).status.Absent?
  {
    hide KeyOf;
  }

  /**
   What the player is told is needed: as many maps as there are keys, and names without a key, that
   are not present. Nothing to fetch is only said after each of them was looked up in vain.
   */
  lemma NoSourceMeans(maps: Maps, server: Server, resolution: Option<ResolutionPass>)
    ensures var state := ClassifyServer(maps, server, resolution).state;
            var count := |NeededKeys(maps, server)| + Keyless(server.rotation);
            var nothing := && resolution.Some? && resolution.value.nonResults == []
                           && |resolution.value.outcomes| == count
                           && forall outcome :: outcome in resolution.value.outcomes ==>
                                outcome.NothingOffered?;
            state == if server.rotation == [] then CantTell
                     else if count == 0 then AllPresent
                     else if nothing then NoSource(count)
                     else NeedsMaps(count, resolution)
  {
    hide KeyOf, CheckReport, Readiness, ResultFor, NeededKeys, Keyless, Published, CheckedMaps;
    var checked, published := CheckedMaps(server), Published(server);
    var report := CheckReport(maps, checked, published);
    SilenceChecksNothing(server);
    ProblemsAreNeeded(report.maps, maps, checked, published);
    NeededOfServer(maps, server);
    if resolution.Some? {
      var outcomes := resolution.value.outcomes;
      assert (forall i :: 0 <= i < |outcomes| ==> outcomes[i].NothingOffered?)
        <==> (forall outcome :: outcome in outcomes ==> outcome.NothingOffered?);
    }
  }

  lemma SilenceChecksNothing(server: Server)
    ensures CheckedMaps(server) == [] ==> server.rotation == []
  {
  }

  lemma NeededOfServer(maps: Maps, server: Server)
    ensures NeededAmong(maps, CheckedMaps(server), Published(server)) == NeededKeys(maps, server)
    ensures Keyless(CheckedMaps(server)) == Keyless(server.rotation)
  {
    hide KeyOf, ResultFor;
    CheckedNames(server);
    var checked := CheckedMaps(server);
    if NamesItsMap(server) {
      assert checked[..|checked| - 1] == server.rotation;
    } else {
      assert checked == server.rotation;
    }
  }

  /** The assessment keeps the evidence: one result for every key the server published. */
  lemma EvidenceIsKept(maps: Maps, server: Server, resolution: Option<ResolutionPass>, name: string)
    requires name in server.rotation
             || (NamesItsMap(server) && name == server.currentMap.value)
    ensures var preflight := ClassifyServer(maps, server, resolution).preflight;
            && preflight.Some?
            && exists result :: && result in preflight.value.maps
                                && KeyOf(result.name) == KeyOf(name)
                                && result.status
                                   == ResultFor(maps, Published(server), name).status
  {
    hide KeyOf, ResultFor, CheckReport, Firsts, Readiness;
    CheckedNames(server);
    var checked, published := CheckedMaps(server), Published(server);
    var report := CheckReport(maps, checked, published);
    var i :| 0 <= i < |checked| && checked[i] == name;
    var k := FirstWith(checked, i);
    SameKeySameStatus(maps, published, checked[Firsts(checked)[k]], name);
    ResultNames(maps, published, checked);
    assert report.maps[k] in report.maps;
  }

  /** The first place of a name's key, or the name's own place when it has no key. */
  lemma {:induction false} FirstWith(names: seq<string>, i: nat) returns (k: nat)
    requires i < |names|
    ensures k < |Firsts(names)| && KeyOf(names[Firsts(names)[k]]) == KeyOf(names[i])
    decreases i
  {
    hide KeyOf;
    FirstsAreExact(names);
    if Repeats(names, i) {
      var j :| 0 <= j < i && KeyOf(names[j]) == KeyOf(names[i]);
      k := FirstWith(names, j);
    } else {
      assert i in Firsts(names);
      k :| 0 <= k < |Firsts(names)| && Firsts(names)[k] == i;
    }
  }

  /** There is no evidence exactly when the server published neither a rotation nor its map. */
  lemma NoEvidence(maps: Maps, server: Server, resolution: Option<ResolutionPass>)
    ensures ClassifyServer(maps, server, resolution).preflight.None?
            <==> server.rotation == [] && !NamesItsMap(server)
  {
    hide KeyOf, CheckReport, Readiness;
  }
}
