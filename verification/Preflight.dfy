/** Comparing a server's rotation with the map index, in one pass that also counts problems. */
module Preflight {
  import opened Common
  import opened MapFiles
  import opened MapIndexes

  datatype PublishedChecksum = PublishedChecksum(name: string, checksum: int)

  datatype MapStatus =
    | Present(checksum: int, checked: bool)
    | ChecksumDiffers(local: int, server: int)
    | Absent

  datatype MapResult = MapResult(name: string, status: MapStatus)

  datatype Verdict = Compatible | ProblemsFound(absent: nat, checksumMismatches: nat)

  datatype Report = Report(verdict: Verdict, maps: seq<MapResult>)

  /** Compare each distinct map of a rotation with the copy the index says the engine loads. */
  method Check(maps: Maps, rotation: seq<string>, published: Option<PublishedChecksum>)
    returns (report: Report)
    ensures report == CheckReport(maps, rotation, published)
  {
    hide KeyOf, Firsts, ResultsOf, Absents, Mismatches, CheckReport;
    var absent, checksumMismatches, seen, results := 0, 0, {}, [];
    NothingChecked(maps, rotation, published);
    for i := 0 to |rotation|
      invariant forall key :: key in seen <==> KeyBefore(rotation, i, key)
      invariant absent == Absents(results) && checksumMismatches == Mismatches(results)
      invariant ResultsOf(results, maps, rotation[..i], published)
    {
      var name := rotation[i];
      var key := KeyOf(name);
      ResultsOfNext(results, maps, rotation, i, published);
      if key.None? || key.value !in seen {
        seen := if key.None? then seen else seen + {key.value};
        var local := Get(maps, name);
        var expected := Expected(published, name);
        var status;
        if local.None? || local.value.providers == [] {
          absent := absent + 1;
          status := Absent;
        } else {
          var checksum := local.value.providers[0].header.checksum;
          if expected.None? {
            status := Present(checksum, false);
          } else if checksum == expected.value {
            status := Present(checksum, true);
          } else {
            checksumMismatches := checksumMismatches + 1;
            status := ChecksumDiffers(checksum, expected.value);
          }
        }
        results := results + [MapResult(name, status)];
      }
    }
    assert rotation[..|rotation|] == rotation;
    var verdict := if absent == 0 && checksumMismatches == 0 then Compatible
                   else ProblemsFound(absent, checksumMismatches);
    report := Report(verdict, results);
    ReportIsUnique(report, maps, rotation, published);
  }

  // ----- Which names are checked -----

  predicate KeyBefore(names: seq<string>, n: nat, key: string)
    requires n <= |names|
  {
    exists j :: 0 <= j < n && KeyOf(names[j]) == Some(key)
  }

  /** An earlier name has the same key; a name without a key repeats nothing. */
  predicate Repeats(names: seq<string>, i: nat)
    requires i < |names|
  {
    KeyOf(names[i]).Some? && KeyBefore(names, i, KeyOf(names[i]).value)
  }

  /** The positions of the names that repeat nothing. */
  function Firsts(names: seq<string>): (firsts: seq<nat>)
    ensures forall k :: 0 <= k < |firsts| ==> firsts[k] < |names|
  {
    if names == [] then []
    else
      var last := |names| - 1;
      Firsts(names[..last]) + if Repeats(names, last) then [] else [last]
  }

  lemma RepeatsInPrefix(names: seq<string>, i: nat)
    requires i < |names|
    ensures Repeats(names[..i + 1], i) == Repeats(names, i)
    ensures forall key :: KeyBefore(names, i + 1, key)
                          <==> KeyBefore(names, i, key) || KeyOf(names[i]) == Some(key)
  {
    hide KeyOf;
    var prefix := names[..i + 1];
    forall key ensures KeyBefore(prefix, i, key) == KeyBefore(names, i, key) {
      if KeyBefore(names, i, key) {
        var j :| 0 <= j < i && KeyOf(names[j]) == Some(key);
        assert prefix[j] == names[j];
      }
    }
  }

  lemma FirstsOfNext(names: seq<string>, i: nat)
    requires i < |names|
    ensures forall key :: KeyBefore(names, i + 1, key)
                          <==> KeyBefore(names, i, key) || KeyOf(names[i]) == Some(key)
    ensures Firsts(names[..i + 1])
            == Firsts(names[..i]) + if Repeats(names, i) then [] else [i]
  {
    hide KeyOf;
    RepeatsInPrefix(names, i);
    assert names[..i + 1][..i] == names[..i];
  }

  /** First-seen order, every position that repeats nothing, and no other. */
  lemma {:induction false} FirstsAreExact(names: seq<string>)
    ensures forall k, l :: 0 <= k < l < |Firsts(names)| ==> Firsts(names)[k] < Firsts(names)[l]
    ensures forall i :: 0 <= i < |names| ==> (i in Firsts(names) <==> !Repeats(names, i))
  {
    hide KeyOf;
    if names != [] {
      var last := |names| - 1;
      var front := names[..last];
      FirstsAreExact(front);
      forall i | 0 <= i < last ensures Repeats(front, i) == Repeats(names, i) {
        RepeatsInPrefix(front, i);
        RepeatsInPrefix(names, i);
        assert front[..i + 1] == names[..i + 1];
      }
    }
  }

  /** Every key of the rotation is checked once. */
  lemma {:induction false} EveryKeyOnce(names: seq<string>, i: nat)
    requires i < |names| && KeyOf(names[i]).Some?
    ensures exists k :: 0 <= k < |Firsts(names)| && KeyOf(names[Firsts(names)[k]]) == KeyOf(names[i])
    ensures forall k, l :: 0 <= k < l < |Firsts(names)| && KeyOf(names[Firsts(names)[k]]) == KeyOf(names[i])
              ==> KeyOf(names[Firsts(names)[l]]) != KeyOf(names[i])
    decreases i
  {
    hide KeyOf;
    FirstsAreExact(names);
    if Repeats(names, i) {
      var j :| 0 <= j < i && KeyOf(names[j]) == KeyOf(names[i]);
      EveryKeyOnce(names, j);
    } else {
      assert i in Firsts(names);
      var k :| 0 <= k < |Firsts(names)| && Firsts(names)[k] == i;
    }
    forall k, l | 0 <= k < l < |Firsts(names)| && KeyOf(names[Firsts(names)[k]]) == KeyOf(names[i])
      ensures KeyOf(names[Firsts(names)[l]]) != KeyOf(names[i])
    {
      assert Firsts(names)[l] in Firsts(names) && Firsts(names)[k] < Firsts(names)[l];
    }
  }

  // ----- What a result says -----

  /** The published checksum, when it is for this map; two unusable names count as the same. */
  function Expected(published: Option<PublishedChecksum>, name: string): Option<int> {
    if published.Some? && KeyOf(published.value.name) == KeyOf(name)
    then Some(published.value.checksum)
    else None
  }

  function Effective(maps: Maps, name: string): Option<int> {
    var local := Get(maps, name);
    if local.None? || local.value.providers == [] then None
    else Some(local.value.providers[0].header.checksum)
  }

  function ResultFor(maps: Maps, published: Option<PublishedChecksum>, name: string): MapResult {
    var expected := Expected(published, name);
    MapResult(name, match Effective(maps, name)
      case None => Absent
      case Some(local) =>
        if expected.Some? && expected.value != local then ChecksumDiffers(local, expected.value)
        else Present(local, expected.Some?))
  }

  function Absents(results: seq<MapResult>): nat {
    if results == [] then 0
    else
      var last := |results| - 1;
      Absents(results[..last]) + if results[last].status.Absent? then 1 else 0
  }

  function Mismatches(results: seq<MapResult>): nat {
    if results == [] then 0
    else
      var last := |results| - 1;
      Mismatches(results[..last]) + if results[last].status.ChecksumDiffers? then 1 else 0
  }

  /** One result for each first name, in order. */
  ghost predicate ResultsOf(
    results: seq<MapResult>, maps: Maps, rotation: seq<string>, published: Option<PublishedChecksum>)
  {
    && |results| == |Firsts(rotation)|
    && forall k :: 0 <= k < |results| ==>
         results[k] == ResultFor(maps, published, rotation[Firsts(rotation)[k]])
  }

  ghost predicate ReportOf(
    report: Report, maps: Maps, rotation: seq<string>, published: Option<PublishedChecksum>)
  {
    && ResultsOf(report.maps, maps, rotation, published)
    && report.verdict
       == if Absents(report.maps) == 0 && Mismatches(report.maps) == 0 then Compatible
          else ProblemsFound(Absents(report.maps), Mismatches(report.maps))
  }

  function CheckReport(
    maps: Maps, rotation: seq<string>, published: Option<PublishedChecksum>): (report: Report)
    ensures ReportOf(report, maps, rotation, published)
  {
    var firsts := Firsts(rotation);
    var results := seq(|firsts|, k requires 0 <= k < |firsts| =>
      ResultFor(maps, published, rotation[firsts[k]]));
    var absent, checksumMismatches := Absents(results), Mismatches(results);
    Report(
      if absent == 0 && checksumMismatches == 0 then Compatible
      else ProblemsFound(absent, checksumMismatches), results)
  }

  lemma ReportIsUnique(
    report: Report, maps: Maps, rotation: seq<string>, published: Option<PublishedChecksum>)
    requires ReportOf(report, maps, rotation, published)
    ensures report == CheckReport(maps, rotation, published)
  {
    hide ResultFor, KeyOf, Firsts, CheckReport;
    assert report.maps == CheckReport(maps, rotation, published).maps;
  }

  lemma CountsOfNext(results: seq<MapResult>, next: MapResult)
    ensures Absents(results + [next]) == Absents(results) + if next.status.Absent? then 1 else 0
    ensures Mismatches(results + [next])
            == Mismatches(results) + if next.status.ChecksumDiffers? then 1 else 0
  {
    assert (results + [next])[..|results|] == results;
  }

  lemma NothingChecked(
    maps: Maps, rotation: seq<string>, published: Option<PublishedChecksum>)
    ensures ResultsOf([], maps, rotation[..0], published)
    ensures Absents([]) == 0 && Mismatches([]) == 0
  {
  }

  lemma ResultsOfNext(
    results: seq<MapResult>, maps: Maps, rotation: seq<string>, i: nat,
    published: Option<PublishedChecksum>)
    requires i < |rotation| && ResultsOf(results, maps, rotation[..i], published)
    ensures forall key :: KeyBefore(rotation, i + 1, key)
                          <==> KeyBefore(rotation, i, key) || KeyOf(rotation[i]) == Some(key)
    ensures Repeats(rotation, i) ==> ResultsOf(results, maps, rotation[..i + 1], published)
    ensures !Repeats(rotation, i) ==>
              var next := ResultFor(maps, published, rotation[i]);
              && ResultsOf(results + [next], maps, rotation[..i + 1], published)
              && Absents(results + [next])
                 == Absents(results) + (if next.status.Absent? then 1 else 0)
              && Mismatches(results + [next])
                 == Mismatches(results) + (if next.status.ChecksumDiffers? then 1 else 0)
  {
    hide KeyOf, ResultFor, Firsts, Repeats;
    var next := ResultFor(maps, published, rotation[i]);
    FirstsOfNext(rotation, i);
    CountsOfNext(results, next);
    var before, after := Firsts(rotation[..i]), Firsts(rotation[..i + 1]);
    forall k | 0 <= k < |before|
      ensures after[k] == before[k] && rotation[..i + 1][after[k]] == rotation[..i][before[k]]
    {
    }
  }

  lemma {:induction false} NoProblems(results: seq<MapResult>)
    ensures Absents(results) + Mismatches(results) == 0
            <==> forall k :: 0 <= k < |results| ==> results[k].status.Present?
  {
    if results != [] {
      NoProblems(results[..|results| - 1]);
    }
  }

  lemma {:induction false} OneMismatch(results: seq<MapResult>, k: nat)
    requires k < |results|
    requires forall l :: 0 <= l < |results| && l != k ==> !results[l].status.ChecksumDiffers?
    ensures Mismatches(results) <= 1
    ensures k < |results| - 1 ==> Mismatches(results) == Mismatches(results[..|results| - 1])
  {
    var front := results[..|results| - 1];
    if k < |front| {
      OneMismatch(front, k);
    } else {
      NoMismatch(front);
    }
  }

  lemma {:induction false} NoMismatch(results: seq<MapResult>)
    requires forall l :: 0 <= l < |results| ==> !results[l].status.ChecksumDiffers?
    ensures Mismatches(results) == 0
  {
    if results != [] {
      NoMismatch(results[..|results| - 1]);
    }
  }

  /** Compatible means that every checked map is present, and only one map can ever differ. */
  lemma VerdictMeans(maps: Maps, rotation: seq<string>, published: Option<PublishedChecksum>)
    ensures var report := CheckReport(maps, rotation, published);
            && (report.verdict.Compatible?
                <==> forall i :: 0 <= i < |rotation| && !Repeats(rotation, i) ==>
                       ResultFor(maps, published, rotation[i]).status.Present?)
            && (report.verdict.ProblemsFound? ==>
                  && report.verdict.absent == Absents(report.maps)
                  && report.verdict.checksumMismatches == Mismatches(report.maps) <= 1)
  {
    hide CheckReport;
    var report := CheckReport(maps, rotation, published);
    hide KeyOf, ResultFor;
    var firsts := Firsts(rotation);
    FirstsAreExact(rotation);
    NoProblems(report.maps);
    AtMostOneMismatch(report.maps, maps, rotation, published);
    forall i | 0 <= i < |rotation| && !Repeats(rotation, i)
      ensures exists k :: 0 <= k < |firsts| && firsts[k] == i
    {
      assert i in firsts;
    }
    forall k | 0 <= k < |firsts| ensures !Repeats(rotation, firsts[k]) {
      assert firsts[k] in firsts;
    }
  }

  /** A checked name without a key is absent, and every other checked name has a key of its own. */
  lemma AtMostOneMismatch(
    results: seq<MapResult>, maps: Maps, rotation: seq<string>, published: Option<PublishedChecksum>)
    requires ResultsOf(results, maps, rotation, published)
    ensures Mismatches(results) <= 1
  {
    hide KeyOf;
    if k :| 0 <= k < |results| && results[k].status.ChecksumDiffers? {
      forall l | 0 <= l < |results| && l != k ensures !results[l].status.ChecksumDiffers? {
        EveryKeyOnce(rotation, Firsts(rotation)[k]);
      }
      OneMismatch(results, k);
    } else {
      NoMismatch(results);
    }
  }

  /** Over a scanned index, a status is a fact about the copy the engine's own lookup finds first. */
  lemma StatusMeans(
    maps: Maps, dirs: seq<Directory>, published: Option<PublishedChecksum>, name: string)
    requires AllScannable(dirs) && Scanned(maps, dirs)
    ensures var status := ResultFor(maps, published, name).status;
            var key := KeyOf(name);
            && (status.Absent? <==> key.None? || EngineLookup(dirs, key.value) == [])
            && (!status.Absent? ==>
                  var loaded := EngineLookup(dirs, key.value)[0].provider.header.checksum;
                  && (status.ChecksumDiffers?
                      <==> && published.Some? && KeyOf(published.value.name) == key
                           && published.value.checksum != loaded)
                  && (if status.Present? then status.checksum else status.local) == loaded)
            && (status.Present? ==>
                  (status.checked <==> published.Some? && KeyOf(published.value.name) == key))
            && (status.ChecksumDiffers? ==> status.server == published.value.checksum)
  {
    hide KeyOf, EngineLookup;
    if KeyOf(name).Some? {
      var key := KeyOf(name).value;
      assert key in maps <==> EngineLookup(dirs, key) != [];
      assert Effective(maps, name).Some? ==>
          Effective(maps, name).value == EngineLookup(dirs, key)[0].provider.header.checksum;
    }
  }
}
