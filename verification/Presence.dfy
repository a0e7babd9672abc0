/** The player's shared status: what is played, whether it is shared, and the connection showing it. */
module Presences {
  import opened Common
  import opened Discovery

  datatype Activity = Activity(game: TargetGame, server: string, started: nat)

  /** One launched match; ids are never reused. */
  type MatchId = nat

  /** An exchange that has been asked for, named by the attempt that was the newest then. */
  datatype Publish = Publish(attempt: nat, activity: Activity)

  /** The fields of the shared state, as a value, and the transitions its methods are to make. */
  datatype Status<C> = Status(
    enabled: bool,
    lastMatch: nat,
    current: Option<(MatchId, Activity)>,
    attempt: nat,
    connection: Option<C>)
  {
    /** What a change leaves to be shown: only a shared match, under the newest attempt. */
    function Wanted(): Option<Publish> {
      if enabled && current.Some? then Some(Publish(attempt, current.value.1)) else None
    }

    predicate Playing(id: MatchId) {
      current.Some? && current.value.0 == id
    }

    /** Every change closes the status showing and retires the exchanges under way. */
    function Changed(): Status<C> {
      this.(attempt := attempt + 1, connection := None)
    }

    function Sharing(on: bool): Status<C> {
      if enabled == on then this else this.(enabled := on).Changed()
    }

    function Began(activity: Activity): Status<C> {
      this.(lastMatch := lastMatch + 1, current := Some((lastMatch + 1, activity))).Changed()
    }

    function Ended(id: MatchId): Status<C> {
      if Playing(id) then this.(current := None).Changed() else this
    }

    function Kept(finished: nat, c: C): Status<C> {
      if finished == attempt then this.(connection := Some(c)) else this
    }
  }

  class State<C> {
    var enabled: bool
    var lastMatch: nat
    var current: Option<(MatchId, Activity)>
    var attempt: nat
    var connection: Option<C>

    ghost function Value(): Status<C>
      reads this
    {
      Status(enabled, lastMatch, current, attempt, connection)
    }

    constructor ()
      ensures Value() == Status(false, 0, None, 0, None)
    {
      enabled, lastMatch, current, attempt, connection := false, 0, None, 0, None;
    }

    method SetEnabled(on: bool) returns (next: Option<Publish>)
      modifies this
      ensures Value() == old(Value()).Sharing(on) && enabled == on
      ensures current == old(current) && lastMatch == old(lastMatch)
      ensures next == if on == old(enabled) then None else Value().Wanted()
      ensures next.Some? <==> on && !old(enabled) && current.Some?
      ensures next.Some? ==> next.value == Publish(attempt, current.value.1)
    {
      if enabled == on {
        return None;
      }
      enabled := on;
      next := Reset();
    }

    method Begin(activity: Activity) returns (id: MatchId, next: Option<Publish>)
      modifies this
      ensures Value() == old(Value()).Began(activity)
      ensures current == Some((id, activity)) && id > old(lastMatch) && enabled == old(enabled)
      ensures next == if enabled then Some(Publish(attempt, activity)) else None
    {
      lastMatch := lastMatch + 1;
      id := lastMatch;
      current := Some((id, activity));
      next := Reset();
    }

    method End(id: MatchId)
      modifies this
      ensures Value() == old(Value()).Ended(id)
      ensures current == if old(current).Some? && old(current).value.0 == id then None
                         else old(current)
    {
      if current.Some? && current.value.0 == id {
        current := None;
        var _ := Reset();
      }
    }

    /** Store a connection under its attempt, which is only taken while it is the newest one. */
    method Keep(finished: nat, c: C) returns (kept: bool)
      modifies this`connection
      ensures Value() == old(Value()).Kept(finished, c)
      ensures kept <==> finished == attempt
      ensures kept ==> connection == Some(c)
    {
      kept := attempt == finished;
      if kept {
        connection := Some(c);
      }
    }

    /** Move on to a new attempt without a connection; what is wanted now is to be published. */
    method Reset() returns (next: Option<Publish>)
      modifies this`attempt, this`connection
      ensures Value() == old(Value()).Changed()
      ensures attempt == old(attempt) + 1 && connection == None
      ensures next == if enabled && current.Some? then Some(Publish(attempt, current.value.1))
                      else None
    {
      attempt := attempt + 1;
      connection := None;
      if current.None? || !enabled {
        return None;
      }
      next := Some(Publish(attempt, current.value.1));
    }
  }
}
