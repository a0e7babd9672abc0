/** Asking the map catalogue about many maps, a few at a time, and picking the entry for each. */
module Lookups {
  import opened Common

  datatype Entry = Entry(id: nat, mapKey: Option<string>, hasFile: bool)

  datatype Wanted = Wanted(name: string, key: string)

  datatype Match = Match(key: string, entry: Option<Entry>)

  /** What the catalogue answers for one name, or why it does not. */
  type Answer = Result<seq<Entry>, string>

  const PLAYED_NOW_CONCURRENCY: nat := 4

  function Exact(entries: seq<Entry>, key: string): seq<Entry> {
    if entries == [] then []
    else (if entries[0].mapKey == Some(key) then [entries[0]] else []) + Exact(entries[1..], key)
  }

  function FirstWithFile(entries: seq<Entry>): nat {
    if entries == [] || entries[0].hasFile then 0
    else
      var later := FirstWithFile(entries[1..]);
      if later < |entries| - 1 then later + 1 else |entries|
  }

  /** The first entry for exactly this map that has a file, or else the first for this map. */
  function BestMatch(entries: seq<Entry>, key: string): Option<Entry> {
    var exact := Exact(entries, key);
    var at := if FirstWithFile(exact) < |exact| then FirstWithFile(exact) else 0;
    if at < |exact| then Some(exact[at]) else None
  }

  /** Listed before `i`, there is another entry for the map, or another with a file. */
  ghost predicate Preceded(entries: seq<Entry>, key: string, i: nat, withFile: bool)
    requires i <= |entries|
  {
    exists j :: 0 <= j < i && entries[j].mapKey == Some(key) && (withFile ==> entries[j].hasFile)
  }

  lemma {:induction false} ExactAt(entries: seq<Entry>, key: string, k: nat) returns (i: nat)
    requires k < |Exact(entries, key)|
    ensures i < |entries| && entries[i] == Exact(entries, key)[k] && entries[i].mapKey == Some(key)
    ensures forall j :: 0 <= j < i && entries[j].mapKey == Some(key) ==>
              entries[j] in Exact(entries, key)[..k]
  {
    var head := entries[0].mapKey == Some(key);
    if head && k == 0 {
      i := 0;
    } else {
      var rest := ExactAt(entries[1..], key, if head then k - 1 else k);
      i := rest + 1;
      var exact := Exact(entries, key);
      forall j | 0 <= j < i && entries[j].mapKey == Some(key) ensures entries[j] in exact[..k] {
        if j == 0 {
          assert exact[..k][0] == entries[0];
        } else {
          assert entries[1..][j - 1] == entries[j];
          assert exact[..k] == (if head then [entries[0]] else [])
                               + Exact(entries[1..], key)[..if head then k - 1 else k];
        }
      }
    }
  }

  lemma {:induction false} ExactKeepsAll(entries: seq<Entry>, key: string, i: nat)
    requires i < |entries| && entries[i].mapKey == Some(key)
    ensures entries[i] in Exact(entries, key)
  {
    if i > 0 {
      ExactKeepsAll(entries[1..], key, i - 1);
    }
  }

  lemma {:induction false} FirstIsFirst(entries: seq<Entry>)
    ensures FirstWithFile(entries) <= |entries|
    ensures FirstWithFile(entries) < |entries| ==> entries[FirstWithFile(entries)].hasFile
    ensures forall j :: 0 <= j < FirstWithFile(entries) ==> !entries[j].hasFile
  {
    if entries != [] {
      FirstIsFirst(entries[1..]);
    }
  }

  /**
   The pick is for exactly this map, whenever there is one; it has a file whenever some entry for
   this map has one, and none like it is listed before it.
   */
  lemma BestMatchMeans(entries: seq<Entry>, key: string)
    ensures BestMatch(entries, key).None? <==> !Preceded(entries, key, |entries|, false)
    ensures BestMatch(entries, key).Some? ==>
              var best := BestMatch(entries, key).value;
              exists i :: && 0 <= i < |entries| && entries[i] == best && best.mapKey == Some(key)
                          && (Preceded(entries, key, |entries|, true) ==> best.hasFile)
                          && !Preceded(entries, key, i, best.hasFile)
  {
    var exact := Exact(entries, key);
    FirstIsFirst(exact);
    forall j | 0 <= j < |entries| && entries[j].mapKey == Some(key) ensures entries[j] in exact {
      ExactKeepsAll(entries, key, j);
    }
    if exact != [] {
      var at := if FirstWithFile(exact) < |exact| then FirstWithFile(exact) else 0;
      var i := ExactAt(entries, key, at);
      assert Preceded(entries, key, |entries|, false);
      forall j | 0 <= j < i && entries[j].mapKey == Some(key)
        ensures entries[i].hasFile && !entries[j].hasFile
      {
        assert entries[j] in exact[..at];
      }
    }
  }

  // ----- Many maps -----

  function Found(wanted: seq<Wanted>, answers: seq<Answer>, i: nat): multiset<Match>
    requires i < |wanted| == |answers|
  {
    if answers[i].Failure? then multiset{}
    else multiset{Match(wanted[i].key, BestMatch(answers[i].value, wanted[i].key))}
  }

  /** What the lookups in `done` yield together. */
  ghost function Matches(wanted: seq<Wanted>, answers: seq<Answer>, done: set<nat>): multiset<Match>
    requires |wanted| == |answers| && forall i :: i in done ==> i < |wanted|
  {
    if done == {} then multiset{}
    else
      var i :| i in done;
      Matches(wanted, answers, done - {i}) + Found(wanted, answers, i)
  }

  lemma {:induction false} MatchesWithout(
    wanted: seq<Wanted>, answers: seq<Answer>, done: set<nat>, i: nat)
    requires |wanted| == |answers| && i in done && forall k :: k in done ==> k < |wanted|
    ensures Matches(wanted, answers, done)
            == Matches(wanted, answers, done - {i}) + Found(wanted, answers, i)
    decreases |done|
  {
    hide Found;
    var j :| j in done
      && Matches(wanted, answers, done)
         == Matches(wanted, answers, done - {j}) + Found(wanted, answers, j);
    if i != j {
      MatchesWithout(wanted, answers, done - {j}, i);
      MatchesWithout(wanted, answers, done - {i}, j);
      assert done - {j} - {i} == done - {i} - {j};
    }
  }

  /** Every index below `n` once, in order. */
  function UpTo(n: nat): (indices: seq<nat>)
    ensures |indices| == n && forall i :: 0 <= i < n ==> indices[i] == i
  {
    if n == 0 then [] else UpTo(n - 1) + [n - 1]
  }

  function All(n: nat): (all: set<nat>)
    ensures forall i: nat :: i in all <==> i < n
  {
    if n == 0 then {} else All(n - 1) + {n - 1}
  }

  /** The matches found and the last failure are what the lookups in `done` came to. */
  ghost predicate Recorded(
    wanted: seq<Wanted>, answers: seq<Answer>, done: set<nat>, found: seq<Match>,
    failure: Option<string>)
    requires |wanted| == |answers|
  {
    && (forall i :: i in done ==> i < |wanted|)
    && multiset(found) == Matches(wanted, answers, done)
    && (found == [] <==> forall i :: i in done ==> answers[i].Failure?)
    && (failure.None? <==> forall i :: i in done ==> answers[i].Success?)
  }

  lemma RecordedNext(
    wanted: seq<Wanted>, answers: seq<Answer>, done: set<nat>, found: seq<Match>,
    failure: Option<string>, i: nat)
    requires |wanted| == |answers| && i < |wanted| && i !in done
    requires Recorded(wanted, answers, done, found, failure)
    ensures answers[i].Success? ==>
              var match_ := Match(wanted[i].key, BestMatch(answers[i].value, wanted[i].key));
              Recorded(wanted, answers, done + {i}, found + [match_], failure)
    ensures answers[i].Failure? ==>
              Recorded(wanted, answers, done + {i}, found, Some(answers[i].error))
  {
    hide BestMatch, Matches;
    assert done + {i} - {i} == done;
    MatchesWithout(wanted, answers, done + {i}, i);
    forall k | k in done ensures k in done + {i} {}
  }

  /**
   Begin the lookup of every map once, in order and never more than a few at a time, and take the
   answers in whatever order they come.
   What is found is what each answered lookup yields, and the call only fails when there was
   something to look up and every lookup failed.
   */
  method LookUpMaps(wanted: seq<Wanted>, answers: seq<Answer>)
    returns (outcome: Result<seq<Match>, string>, ghost most: nat, ghost begun: seq<nat>)
    requires |wanted| == |answers|
    ensures most <= 4
    ensures begun == UpTo(|wanted|)
    ensures outcome.Failure?
            <==> wanted != [] && forall i :: 0 <= i < |answers| ==> answers[i].Failure?
    ensures outcome.Success? ==>
              multiset(outcome.value) == Matches(wanted, answers, All(|wanted|))
  {
    hide Recorded, BestMatch, Matches, All, Split, UpTo;
    NothingDone(wanted, answers);
    var next, found, failure := 0, [], None;
    var running: set<nat> := {};
    ghost var done: set<nat> := {};
    most, begun := 0, [];
    while true
      invariant begun == UpTo(next)
      invariant next <= |wanted| && |running| <= PLAYED_NOW_CONCURRENCY && most <= PLAYED_NOW_CONCURRENCY
      invariant Split(running, done, next)
      invariant Recorded(wanted, answers, done, found, failure)
      decreases |wanted| - next + |running|
    {
      running, next, begun := FillUp(|wanted|, running, next, done, begun);
      most := if |running| > most then |running| else most;
      if |running| == 0 {
        break;
      }
      var i :| i in running;
      Finished(running, done, next, i);
      RecordedNext(wanted, answers, done, found, failure, i);
      running := running - {i};
      done := done + {i};
      match answers[i] {
        case Success(entries) =>
          found := found + [Match(wanted[i].key, BestMatch(entries, wanted[i].key))];
        case Failure(reason) =>
          failure := Some(reason);
      }
    }
    assert running == {};
    AllRecorded(wanted, answers, done, found, failure);
    if failure.Some? && found == [] {
      return Failure(failure.value), most, begun;
    }
    outcome := Success(found);
  }

  /** Begin lookups while there is room and there are any left. */
  method FillUp(total: nat, before: set<nat>, from: nat, ghost done: set<nat>, ghost earlier: seq<nat>)
    returns (running: set<nat>, next: nat, ghost begun: seq<nat>)
    requires from <= total && |before| <= PLAYED_NOW_CONCURRENCY
    requires Split(before, done, from) && earlier == UpTo(from)
    ensures next <= total && |running| <= PLAYED_NOW_CONCURRENCY
    ensures Split(running, done, next) && begun == UpTo(next)
    ensures total - next + |running| == total - from + |before|
    ensures |running| == 4 || next == total
  {
    hide Split, UpTo, All;
    running, next, begun := before, from, earlier;
    while |running| < PLAYED_NOW_CONCURRENCY && next < total
      invariant next <= total && |running| <= PLAYED_NOW_CONCURRENCY
      invariant Split(running, done, next) && begun == UpTo(next)
      invariant total - next + |running| == total - from + |before|
      decreases total - next
    {
      Started(running, done, next);
      running, begun := running + {next}, begun + [next];
      next := next + 1;
    }
  }

  lemma NothingDone(wanted: seq<Wanted>, answers: seq<Answer>)
    requires |wanted| == |answers|
    ensures Recorded(wanted, answers, {}, [], None) && Split({}, {}, 0) && UpTo(0) == []
  {
  }

  /** Every lookup begun is under way or done. */
  ghost predicate Split(running: set<nat>, done: set<nat>, next: nat) {
    running !! done && running + done == All(next)
  }

  lemma Started(running: set<nat>, done: set<nat>, next: nat)
    requires Split(running, done, next)
    ensures Split(running + {next}, done, next + 1) && |running + {next}| == |running| + 1
    ensures UpTo(next + 1) == UpTo(next) + [next]
  {
  }

  lemma Finished(running: set<nat>, done: set<nat>, next: nat, i: nat)
    requires Split(running, done, next) && i in running
    ensures i < next && i !in done && Split(running - {i}, done + {i}, next)
    ensures |running - {i}| == |running| - 1
  {
  }

  lemma AllRecorded(
    wanted: seq<Wanted>, answers: seq<Answer>, done: set<nat>, found: seq<Match>,
    failure: Option<string>)
    requires |wanted| == |answers| && Split({}, done, |wanted|)
    requires Recorded(wanted, answers, done, found, failure)
    ensures multiset(found) == Matches(wanted, answers, All(|wanted|))
    ensures failure.Some? && found == []
            <==> wanted != [] && forall i :: 0 <= i < |answers| ==> answers[i].Failure?
  {
    assert done == All(|wanted|);
    if wanted != [] {
      assert 0 in done;
    }
  }
}
