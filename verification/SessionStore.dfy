/** The session registry with its eviction clock, over an abstract clock, and whole timed runs of it. */
module SessionStore {
  import opened Outcomes
  import opened Sessions

  /** For every registered session, when it was last accessed. */
  type Clock = map<string, int>

  /** The sessions an eviction at time now keeps. */
  function Kept(clock: Clock, ttl: int, now: int): Clock {
    map id | id in clock && clock[id] >= now - ttl :: clock[id]
  }

  class Store {
    var sessions: map<string, Session>

    /** Only Set writes the map, so a session is stored under its own ID. */
    ghost predicate Valid()
      reads this
    {
      forall id <- sessions :: sessions[id].id == id
    }

    ghost function Times(): Clock
      reads this, sessions.Values
    {
      map id | id in sessions :: sessions[id].lastAccessed
    }

    constructor ()
      ensures Valid() && sessions == map[]
    {
      sessions := map[];
    }

    method Set(sess: Session)
      requires Valid()
      modifies this
      ensures Valid() && sessions == old(sessions)[sess.id := sess]
      ensures Times() == Apply(old(Times()), Timed(sess.lastAccessed, Register(sess.id, sess.lastAccessed)))
    {
      sessions := sessions[sess.id := sess];
    }

    method Get(id: string, now: int) returns (r: Option<Session>)
      requires Valid()
      modifies sessions.Values`lastAccessed
      ensures r == if id in sessions then Some(sessions[id]) else None
      ensures Times() == Apply(old(Times()), Timed(now, Use(id)))
    {
      if id !in sessions {
        return None;
      }
      sessions[id].Touch(now);
      return Some(sessions[id]);
    }

    method Delete(id: string, ghost now: int)
      requires Valid()
      modifies this
      ensures Valid() && sessions == old(sessions) - {id}
      ensures Times() == Apply(old(Times()), Timed(now, Remove(id)))
    {
      sessions := sessions - {id};
    }

    method Evict(ttl: int, now: int)
      requires Valid()
      modifies this
      ensures Valid() && forall id <- sessions :: id in old(sessions) && sessions[id] == old(sessions)[id]
      ensures Times() == Apply(old(Times()), Timed(now, Sweep(ttl)))
    {
      var cutoff := now - ttl;
      var todo := sessions.Keys;
      while todo != {}
        invariant todo <= sessions.Keys <= old(sessions).Keys
        invariant forall id <- sessions :: sessions[id] == old(sessions)[id]
        invariant forall id <- old(sessions) :: id in todo || (id in sessions <==> old(sessions)[id].lastAccessed >= cutoff)
      {
        var id :| id in todo;
        todo := todo - {id};
        if sessions[id].lastAccessed < cutoff {
          sessions := sessions - {id};
        }
      }
    }
  }

  datatype Op = Register(id: string, accessed: int) | Use(id: string) | Remove(id: string) | Sweep(ttl: int)

  datatype Timed = Timed(at: int, op: Op)

  function Apply(clock: Clock, t: Timed): Clock {
    match t.op
    case Register(id, accessed) => clock[id := accessed]
    case Use(id) => if id in clock then clock[id := t.at] else clock
    case Remove(id) => clock - {id}
    case Sweep(ttl) => Kept(clock, ttl, t.at)
  }

  function RunAll(clock: Clock, ops: seq<Timed>): Clock {
    if ops == [] then clock else Apply(RunAll(clock, ops[..|ops| - 1]), ops[|ops| - 1])
  }

  ghost predicate Monotone(start: int, ops: seq<Timed>) {
    && (forall i :: 0 <= i < |ops| ==> start <= ops[i].at)
    && (forall i, j :: 0 <= i < j < |ops| ==> ops[i].at <= ops[j].at)
  }

  /** A session leaves the store by Delete, or by an eviction that finds it idle for longer than
      the limit, and by nothing else. */
  lemma LeavesIff(clock: Clock, t: Timed, id: string)
    requires id in clock
    ensures id !in Apply(clock, t) <==>
      t.op == Remove(id) || (t.op.Sweep? && t.at - clock[id] > t.op.ttl)
  {
  }

  /** Nothing removes or replaces the session while ops run. */
  ghost predicate LeftAlone(ops: seq<Timed>, id: string) {
    forall t <- ops :: t.op != Remove(id) && !(t.op.Register? && t.op.id == id)
  }

  /** The session was used at most the limit before eviction i. */
  ghost predicate UsedBefore(since: int, ops: seq<Timed>, id: string, i: nat)
    requires i < |ops| && ops[i].op.Sweep?
  {
    since >= ops[i].at - ops[i].op.ttl ||
    exists j :: 0 <= j < i && ops[j].op == Use(id) && ops[j].at >= ops[i].at - ops[i].op.ttl
  }

  ghost predicate UsedBeforeEach(since: int, ops: seq<Timed>, id: string) {
    forall i :: 0 <= i < |ops| && ops[i].op.Sweep? ==> UsedBefore(since, ops, id, i)
  }

  function LastUse(since: int, ops: seq<Timed>, id: string): int {
    if ops == [] then since
    else if ops[|ops| - 1].op == Use(id) then ops[|ops| - 1].at
    else LastUse(since, ops[..|ops| - 1], id)
  }

  lemma {:induction false} LastUseBounds(since: int, ops: seq<Timed>, id: string)
    requires Monotone(since, ops)
    ensures LastUse(since, ops, id) >= since
    ensures forall j :: 0 <= j < |ops| && ops[j].op == Use(id) ==> LastUse(since, ops, id) >= ops[j].at
    ensures LastUse(since, ops, id) == since ||
      exists j :: 0 <= j < |ops| && ops[j].op == Use(id) && ops[j].at == LastUse(since, ops, id)
  {
    if ops == [] {
    } else {
      var front := ops[..|ops| - 1];
      LastUseBounds(since, front, id);
      assert forall j :: 0 <= j < |front| ==> front[j] == ops[j];
    }
  }

  /** While a session is in the store, its clock shows its last use. */
  lemma {:induction false} ClockShowsLastUse(clock: Clock, ops: seq<Timed>, id: string)
    requires id in clock && LeftAlone(ops, id)
    ensures id in RunAll(clock, ops) ==> RunAll(clock, ops)[id] == LastUse(clock[id], ops, id)
  {
    if ops == [] {
    } else {
      var front := ops[..|ops| - 1];
      assert forall t <- front :: t in ops;
      ClockShowsLastUse(clock, front, id);
      StaysAway(RunAll(clock, front), ops[|ops| - 1], id);
    }
  }

  lemma StaysAway(clock: Clock, t: Timed, id: string)
    requires t.op != Remove(id) && !(t.op.Register? && t.op.id == id)
    ensures id !in clock ==> id !in Apply(clock, t)
  {
  }

  /** Over a whole run with a monotone clock, a session that is neither deleted nor replaced is
      still there at the end if and only if each eviction found a use no older than its limit. */
  lemma {:induction false} StaysIff(clock: Clock, ops: seq<Timed>, id: string)
    requires id in clock && LeftAlone(ops, id) && Monotone(clock[id], ops)
    ensures id in RunAll(clock, ops) <==> UsedBeforeEach(clock[id], ops, id)
  {
    if ops == [] {
    } else {
      var n := |ops| - 1;
      var front := ops[..n];
      assert forall t <- front :: t in ops;
      assert forall j :: 0 <= j < n ==> front[j] == ops[j];
      StaysIff(clock, front, id);
      ClockShowsLastUse(clock, front, id);
      LastUseBounds(clock[id], front, id);
      StaysAway(RunAll(clock, front), ops[n], id);
      UsedPrefix(clock[id], ops, id);
      if id in RunAll(clock, front) {
        LeavesIff(RunAll(clock, front), ops[n], id);
        assert ops[n] in ops;
      }
    }
  }

  lemma UsedPrefix(since: int, ops: seq<Timed>, id: string)
    requires ops != []
    ensures
      UsedBeforeEach(since, ops, id) <==>
      UsedBeforeEach(since, ops[..|ops| - 1], id)
      && (ops[|ops| - 1].op.Sweep? ==> UsedBefore(since, ops, id, |ops| - 1))
  {
    var n := |ops| - 1;
    var front := ops[..n];
    forall i | 0 <= i < n && ops[i].op.Sweep?
      ensures UsedBefore(since, front, id, i) <==> UsedBefore(since, ops, id, i)
    {
      assert forall j :: 0 <= j < i ==> front[j] == ops[j];
    }
  }

  /** A session returned by Get at time t survives every eviction up to t plus the limit. */
  lemma SurvivesAfterGet(clock: Clock, t: int, id: string, ops: seq<Timed>, ttl: int)
    requires id in clock && LeftAlone(ops, id) && Monotone(t, ops)
    requires forall e <- ops :: e.op.Sweep? ==> e.op.ttl >= ttl && e.at <= t + ttl
    ensures id in RunAll(Apply(clock, Timed(t, Use(id))), ops)
  {
    var used := Apply(clock, Timed(t, Use(id)));
    StaysIff(used, ops, id);
    forall i | 0 <= i < |ops| && ops[i].op.Sweep?
      ensures UsedBefore(used[id], ops, id, i)
    {
      assert ops[i] in ops;
    }
  }
}
