/**
 Before one issued ticket per validator becomes a unique index, the surplus leases are expired:
 each validator keeps the lease its heartbeat names, else the oldest, else the lowest agent id.
 */
module LeaseDedupe {
  import opened Options
  import opened TicketStatus

  const RETRY_HOURS := 6

  /** Primary key at this point of the schema. Agent ids compare as 128-bit numbers. */
  datatype Key = Key(agent: nat, hotkey: string)

  /** Times in hours. */
  datatype Ticket = Ticket(status: Status, issuedAt: int, deadline: int, retryAfter: Option<int>)

  type Tickets = map<Key, Ticket>

  /** The agent each validator's heartbeat says it is running, if any. */
  type Heartbeats = map<string, Option<nat>>

  predicate Named(heartbeats: Heartbeats, k: Key) {
    k.hotkey in heartbeats && heartbeats[k.hotkey] == Some(k.agent)
  }

  /** ORDER BY (heartbeat-named first), issued_at, agent_id. */
  predicate Ahead(t: Tickets, heartbeats: Heartbeats, j: Key, k: Key)
    requires j in t && k in t
  {
    if Named(heartbeats, j) != Named(heartbeats, k) then Named(heartbeats, j)
    else if t[j].issuedAt != t[k].issuedAt then t[j].issuedAt < t[k].issuedAt
    else j.agent < k.agent
  }

  function IssuedTo(t: Tickets, hotkey: string): set<Key> {
    set k | k in t && k.hotkey == hotkey && t[k].status == Issued
  }

  /** row_number() within the validator's issued tickets. */
  function LeaseRank(t: Tickets, heartbeats: Heartbeats, k: Key): nat
    requires k in t
  {
    1 + |set j | j in IssuedTo(t, k.hotkey) && Ahead(t, heartbeats, j, k)|
  }

  class Store {
    var tickets: Tickets

    ghost predicate OneIssuedPerValidator()
      reads this
    {
      forall h :: |IssuedTo(tickets, h)| <= 1
    }

    /** UPDATE ... SET status = 'expired', retry_after = deadline + 6 hours WHERE lease_rank > 1. */
    method ExpireSurplus(heartbeats: Heartbeats)
      modifies this
      ensures tickets == Deduped(old(tickets), heartbeats)
      ensures OneIssuedPerValidator()
      ensures forall h :: IssuedTo(old(tickets), h) != {} ==> |IssuedTo(tickets, h)| == 1
    {
      ghost var before := tickets;
      forall h: string
        ensures |IssuedTo(Deduped(before, heartbeats), h)| == if IssuedTo(before, h) == {} then 0 else 1
      {
        ExactlyOneSurvives(before, heartbeats, h);
      }
      tickets := Deduped(tickets, heartbeats);
    }
  }

  function Deduped(t: Tickets, heartbeats: Heartbeats): Tickets {
    map k | k in t ::
      if t[k].status == Issued && LeaseRank(t, heartbeats, k) > 1
      then t[k].(status := Expired, retryAfter := Some(t[k].deadline + RETRY_HOURS))
      else t[k]
  }

  // ---------------------------------------------------------------- who survives

  /** The lease every other lease of its validator comes after. */
  ghost predicate IsFirst(t: Tickets, heartbeats: Heartbeats, hotkey: string, k: Key) {
    k in IssuedTo(t, hotkey) && forall j <- IssuedTo(t, hotkey) :: j == k || Ahead(t, heartbeats, k, j)
  }

  lemma {:induction false} HasFirst(t: Tickets, heartbeats: Heartbeats, hotkey: string, keys: set<Key>) returns (k: Key)
    requires keys != {} && keys <= IssuedTo(t, hotkey)
    ensures k in keys && forall j <- keys :: j == k || Ahead(t, heartbeats, k, j)
    decreases |keys|
  {
    var x :| x in keys;
    if keys == {x} {
      k := x;
    } else {
      var rest := keys - {x};
      var first := HasFirst(t, heartbeats, hotkey, rest);
      k := if Ahead(t, heartbeats, x, first) then x else first;
      forall j | j in keys
        ensures j == k || Ahead(t, heartbeats, k, j)
      {
        assert j == x || j in rest;
      }
    }
  }

  lemma RankOneIffFirst(t: Tickets, heartbeats: Heartbeats, hotkey: string, k: Key)
    requires k in IssuedTo(t, hotkey)
    ensures LeaseRank(t, heartbeats, k) == 1 <==> IsFirst(t, heartbeats, hotkey, k)
  {
    var ahead := set j | j in IssuedTo(t, k.hotkey) && Ahead(t, heartbeats, j, k);
    if IsFirst(t, heartbeats, hotkey, k) {
      assert ahead == {};
    }
    if ahead == {} {
      forall j | j in IssuedTo(t, hotkey) && j != k
        ensures Ahead(t, heartbeats, k, j)
      {
        assert j !in ahead;
      }
    }
  }

  /** A validator that had issued leases keeps exactly its first one. */
  lemma ExactlyOneSurvives(t: Tickets, heartbeats: Heartbeats, hotkey: string)
    ensures forall k :: k in IssuedTo(Deduped(t, heartbeats), hotkey) <==> IsFirst(t, heartbeats, hotkey, k)
    ensures |IssuedTo(Deduped(t, heartbeats), hotkey)| == if IssuedTo(t, hotkey) == {} then 0 else 1
  {
    var kept := IssuedTo(Deduped(t, heartbeats), hotkey);
    forall k
      ensures k in kept <==> IsFirst(t, heartbeats, hotkey, k)
    {
      if k in IssuedTo(t, hotkey) {
        RankOneIffFirst(t, heartbeats, hotkey, k);
      }
    }
    if IssuedTo(t, hotkey) == {} {
      assert kept == {};
    } else {
      var first := HasFirst(t, heartbeats, hotkey, IssuedTo(t, hotkey));
      assert IsFirst(t, heartbeats, hotkey, first);
      assert kept == {first};
    }
  }

  /** The heartbeat names this very lease. */
  ghost predicate Running(heartbeats: Heartbeats, k: Key) {
    k.hotkey in heartbeats && heartbeats[k.hotkey] == Some(k.agent)
  }

  /** `k` is preferred to `j`: named and `j` is not; else older; else the lower agent. */
  ghost predicate Preferred(t: Tickets, heartbeats: Heartbeats, k: Key, j: Key)
    requires k in t && j in t
  {
    || (Running(heartbeats, k) && !Running(heartbeats, j))
    || (Running(heartbeats, k) == Running(heartbeats, j) &&
        (t[k].issuedAt < t[j].issuedAt || (t[k].issuedAt == t[j].issuedAt && k.agent < j.agent)))
  }

  /**
   An issued ticket is left alone exactly when it is preferred to every other issued ticket of its
   validator; otherwise it expires and may be retried six hours after its deadline.
   */
  lemma {:induction false} SurvivesIff(t: Tickets, heartbeats: Heartbeats, k: Key)
    requires k in t
    ensures
      var best := forall j <- t :: j != k && j.hotkey == k.hotkey && t[j].status == Issued ==> Preferred(t, heartbeats, k, j);
      Deduped(t, heartbeats)[k] ==
        if t[k].status == Issued && !best then Ticket(Expired, t[k].issuedAt, t[k].deadline, Some(t[k].deadline + 6))
        else t[k]
  {
    if t[k].status == Issued {
      RankOneIffFirst(t, heartbeats, k.hotkey, k);
      forall j | j in t
        ensures Ahead(t, heartbeats, k, j) <==> Preferred(t, heartbeats, k, j)
        ensures j in IssuedTo(t, k.hotkey) <==> j.hotkey == k.hotkey && t[j].status == Issued
      {
      }
    }
  }

  /** A lease the heartbeat names always survives. */
  lemma {:induction false} NamedLeaseSurvives(t: Tickets, heartbeats: Heartbeats, k: Key)
    requires k in t && t[k].status == Issued && Named(heartbeats, k)
    ensures Deduped(t, heartbeats)[k] == t[k]
  {
    assert k in IssuedTo(t, k.hotkey);
    assert IsFirst(t, heartbeats, k.hotkey, k);
    RankOneIffFirst(t, heartbeats, k.hotkey, k);
  }

  /** Rows that were not issued, and the survivors, are left exactly as they were. */
  lemma OthersUntouched(t: Tickets, heartbeats: Heartbeats, k: Key)
    requires k in t
    ensures k in Deduped(t, heartbeats)
    ensures Deduped(t, heartbeats)[k] != t[k] ==>
      && t[k].status == Issued && !IsFirst(t, heartbeats, k.hotkey, k)
      && Deduped(t, heartbeats)[k] == t[k].(status := Expired, retryAfter := Some(t[k].deadline + RETRY_HOURS))
  {
    if t[k].status == Issued {
      RankOneIffFirst(t, heartbeats, k.hotkey, k);
    }
  }
}
