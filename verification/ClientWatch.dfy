/** Following the process list to learn when a match is over. */
module ClientWatches {
  import opened Common

  datatype Reading = Playing | Ended | Lost

  /** How many unreadable polls a match survives after a client was last seen. */
  const UNKNOWN_POLLS: nat := 3

  /** A reading of the process list: whether a client runs, or `None` when it cannot be read. */
  type Poll = Option<bool>

  predicate Seen(polls: seq<Poll>) {
    exists i :: 0 <= i < |polls| && polls[i] == Some(true)
  }

  /** Unreadable lists since a client was last seen. */
  function UnreadableSince(polls: seq<Poll>): nat {
    if polls == [] || polls[|polls| - 1] == Some(true) then 0
    else UnreadableSince(polls[..|polls| - 1]) + if polls[|polls| - 1].None? then 1 else 0
  }

  class ClientWatch {
    var seen: bool
    var unknown: nat
    ghost var polls: seq<Poll>

    ghost predicate Valid()
      reads this
    {
      && seen == Seen(polls)
      && var since := UnreadableSince(polls);
         unknown == if !seen then 0 else if since < UNKNOWN_POLLS then since else UNKNOWN_POLLS
    }

    constructor ()
      ensures Valid() && polls == []
    {
      seen, unknown, polls := false, 0, [];
    }

    method Read(running: Poll) returns (reading: Reading)
      requires Valid()
      modifies this
      ensures Valid() && polls == old(polls) + [running]
      ensures reading ==
              match running
              case Some(true) => Playing
              case Some(false) => Ended
              case None =>
                if !Seen(old(polls)) then Ended
                else if UnreadableSince(old(polls)) < 3 then Playing
                else Lost
    {
      ghost var before := polls;
      polls := polls + [running];
      assert polls[..|before|] == before && polls[|before|] == running;
      assert forall i :: 0 <= i < |before| ==> polls[i] == before[i];
      if running == Some(true) {
        seen, unknown := true, 0;
        reading := Playing;
      } else if running.None? && seen && unknown < UNKNOWN_POLLS {
        unknown := unknown + 1;
        reading := Playing;
      } else if running.None? && seen {
        reading := Lost;
      } else {
        reading := Ended;
      }
    }
  }

  predicate EndsAt(polls: seq<Poll>, i: nat)
    requires i < |polls|
  {
    polls[i] == Some(false) || (i == 0 && polls[i].None?)
  }

  predicate LostAt(polls: seq<Poll>, i: nat)
    requires i < |polls|
  {
    && i > 3 && polls[i - 4] == Some(true)
    && forall j :: i - 3 <= j <= i ==> polls[j].None?
  }

  predicate Continues(polls: seq<Poll>, n: nat)
    requires n <= |polls|
  {
    forall i :: 0 <= i < n ==> !EndsAt(polls, i) && !LostAt(polls, i)
  }

  /** While a match continues, a client was seen and at most three lists since were unreadable. */
  lemma {:induction false} RunningMatch(polls: seq<Poll>, n: nat)
    requires n <= |polls| && Continues(polls, n)
    ensures n > 0 ==> Seen(polls[..n])
    ensures var since := UnreadableSince(polls[..n]);
            && since <= n && since <= UNKNOWN_POLLS
            && (forall j :: n - since <= j < n ==> polls[j].None?)
            && (n > 0 ==> since < n && polls[n - since - 1] == Some(true))
  {
    if n > 0 {
      RunningMatch(polls, n - 1);
      assert polls[..n][..n - 1] == polls[..n - 1];
      assert !EndsAt(polls, n - 1) && !LostAt(polls, n - 1);
      var last, since := polls[n - 1], UnreadableSince(polls[..n - 1]);
      if last.None? {
        assert polls[n - 1 - since - 1] == Some(true);
        assert since < UNKNOWN_POLLS;
        assert polls[..n][n - since - 2] == Some(true);
      } else {
        assert last.value;
        assert polls[..n][n - 1] == Some(true);
      }
    }
  }

  datatype Outcome = StillRunning | Over(at: nat, playedTo: nat)

  /** What a poll of a continuing match says, told by the few polls before it. */
  lemma NextPoll(polls: seq<Poll>, i: nat)
    requires i < |polls| && Continues(polls, i)
    ensures var since := UnreadableSince(polls[..i]);
            && since <= i && (i > 0 ==> since < i) && (Seen(polls[..i]) ==> i > 0)
            && (EndsAt(polls, i) <==> polls[i] == Some(false)
                                      || (polls[i].None? && !Seen(polls[..i])))
            && (LostAt(polls, i) <==>
                  polls[i].None? && Seen(polls[..i]) && since >= UNKNOWN_POLLS)
            && (LostAt(polls, i) ==> since == UNKNOWN_POLLS)
            && UnreadableSince(polls[..i + 1])
               == if polls[i] == Some(true) then 0
                  else since + if polls[i].None? then 1 else 0
  {
    RunningMatch(polls, i);
    assert polls[..i + 1][..i] == polls[..i];
  }

  /**
   Follow a match over successive polls. It ends at the first poll that sees no client, or whose
   very first list cannot be read; it is lost at the fourth unreadable list in a row, and then only
   the time up to the poll that last saw a client counts as played.
   */
  method WatchGameExit(polls: seq<Poll>) returns (outcome: Outcome)
    ensures outcome.StillRunning? <==> Continues(polls, |polls|)
    ensures outcome.Over? ==>
              && outcome.at < |polls| && Continues(polls, outcome.at)
              && (EndsAt(polls, outcome.at) || LostAt(polls, outcome.at))
              && outcome.playedTo
                 == if EndsAt(polls, outcome.at) then outcome.at else outcome.at - 4
  {
    hide EndsAt, LostAt, Seen, UnreadableSince;
    var watch := new ClientWatch();
    var lastSeen := 0;
    for i := 0 to |polls|
      invariant watch.Valid() && watch.polls == polls[..i] && Continues(polls, i)
      invariant i > 0 ==> lastSeen == i - 1 - UnreadableSince(polls[..i])
    {
      NextPoll(polls, i);
      assert polls[..i + 1] == polls[..i] + [polls[i]];
      var reading := watch.Read(polls[i]);
      match reading {
        case Playing =>
          if polls[i] == Some(true) {
            lastSeen := i;
          }
        case Ended =>
          assert EndsAt(polls, i);
          return Over(i, i);
        case Lost =>
          assert LostAt(polls, i);
          return Over(i, lastSeen);
      }
    }
    outcome := StillRunning;
  }
}
