/**
 alembic/env.py: the pending migrations run one transaction each, and the whole batch is replayed
 a bounded number of times on lock contention.

 A migration may commit part of its work early (`autocommit_block`); the rest commits together
 with its version row. `upcoming` scripts what each connection and each of these transactions meets.
 An attempt that fails leaves what was committed before it in place; the next attempt, or the next
 deploy, starts from what `alembic_version` then says and runs an unfinished migration from its top.
 */
module MigrationRunner {
  import opened Attempts
  import opened MigrationHistory
  import opened Sequences

  const RUN_MAX_ATTEMPTS := 4

  // ---------------------------------------------------------------- one migration

  /** What a migration does to a schema: parts committed early, then the part that moves the version. */
  datatype Body<!S> = Body(early: seq<S -> S>, last: S -> S)

  function Play<S>(parts: seq<S -> S>, s: S): S {
    if parts == [] then s else parts[|parts| - 1](Play(parts[..|parts| - 1], s))
  }

  function Whole<S>(b: Body<S>, s: S): S {
    b.last(Play(b.early, s))
  }

  /** Starting over after any number of early parts gives what a clean run gives. */
  ghost predicate Replayable<S(!new)>(b: Body<S>) {
    forall s: S, k: nat :: k <= |b.early| ==> Whole(b, Play(b.early[..k], s)) == Whole(b, s)
  }

  ghost predicate StopsWithin<S>(b: Body<S>, stops: seq<nat>) {
    forall i :: 0 <= i < |stops| ==> stops[i] <= |b.early|
  }

  /** Two schemas a migration does not tell apart. */
  ghost predicate SameAfter<S>(b: Body<S>, s: S, t: S) {
    Whole(b, s) == Whole(b, t)
  }

  /** One more early part does not matter to a migration that starts over. */
  lemma OnePartMore<S(!new)>(b: Body<S>, s: S, k: nat)
    requires k < |b.early|
    ensures b.early[k](Play(b.early[..k], s)) == Play(b.early[..k + 1], s)
    ensures Replayable(b) ==> SameAfter(b, Play(b.early[..k + 1], s), s)
  {
    assert b.early[..k + 1][..k] == b.early[..k];
  }

  /** The schema after attempts that each stopped after so many early parts. */
  ghost function Interrupted<S>(b: Body<S>, stops: seq<nat>, s: S): S
    requires StopsWithin(b, stops)
  {
    if stops == [] then s else Play(b.early[..stops[|stops| - 1]], Interrupted(b, stops[..|stops| - 1], s))
  }

  /** Stopping there and starting over leaves no trace. */
  ghost predicate LeavesNoTrace<S>(b: Body<S>, stops: seq<nat>, s: S) {
    StopsWithin(b, stops) ==> Whole(b, Interrupted(b, stops, s)) == Whole(b, s)
  }

  lemma {:induction false} InterruptionsLeaveNoTrace<S(!new)>(b: Body<S>, stops: seq<nat>, s: S)
    requires Replayable(b)
    ensures LeavesNoTrace(b, stops, s)
  {
    if stops != [] && StopsWithin(b, stops) {
      InterruptionsLeaveNoTrace(b, stops[..|stops| - 1], s);
    }
  }

  /** Replay is safe, for every pattern of failures and every schema, exactly for replayable migrations. */
  lemma {:induction false} ReplaySafeIff<S(!new)>(b: Body<S>)
    ensures Replayable(b) <==> forall stops: seq<nat>, s: S :: LeavesNoTrace(b, stops, s)
  {
    if Replayable(b) {
      forall stops: seq<nat>, s: S
        ensures LeavesNoTrace(b, stops, s)
      {
        InterruptionsLeaveNoTrace(b, stops, s);
      }
    }
    if forall stops: seq<nat>, s: S :: LeavesNoTrace(b, stops, s) {
      forall s: S, k: nat | k <= |b.early|
        ensures Whole(b, Play(b.early[..k], s)) == Whole(b, s)
      {
        var stops: seq<nat> := [k];
        assert StopsWithin(b, stops) && LeavesNoTrace(b, stops, s);
        assert stops[..|stops| - 1] == [] && Interrupted(b, stops[..|stops| - 1], s) == s;
        assert Interrupted(b, stops, s) == Play(b.early[..k], s);
      }
    }
  }

  /** A migration without early commits needs nothing from its author. */
  lemma TransactionalIsReplayable<S(!new)>(b: Body<S>)
    requires b.early == []
    ensures Replayable(b)
  {
    forall s: S, k: nat | k <= |b.early|
      ensures Whole(b, Play(b.early[..k], s)) == Whole(b, s)
    {
      assert b.early[..k] == [];
    }
  }

  // A backfill that relapses: each part by itself is idempotent, 0 -> 1 -> 2, but a replay goes on to 3 and 4.
  function Raise(x: int): int {
    if x == 0 || x == 2 then x + 1 else x
  }

  function RaiseAgain(x: int): int {
    if x == 1 || x == 3 then x + 1 else x
  }

  function Relapsing(): Body<int> {
    Body([x => Raise(x), x => RaiseAgain(x)], x => x)
  }

  lemma RelapsingRun(x: int)
    ensures Play(Relapsing().early, x) == RaiseAgain(Raise(x))
  {
    var parts := Relapsing().early;
    assert parts[..|parts| - 1] == parts[..1] && parts[..1][..0] == [];
    assert Play(parts[..1][..0], x) == x;
    assert Play(parts[..1], x) == Raise(x);
  }

  /** That every part is idempotent does not make a migration replayable. */
  lemma IdempotentPartsAreNotEnough()
    ensures forall x :: Raise(Raise(x)) == Raise(x) && RaiseAgain(RaiseAgain(x)) == RaiseAgain(x)
    ensures !Replayable(Relapsing())
  {
    var b := Relapsing();
    RelapsingRun(0);
    RelapsingRun(2);
    assert b.early[..2] == b.early && Play(b.early[..2], 0) == 2;
    assert Whole(b, Play(b.early[..2], 0)) == 4 && Whole(b, 0) == 2;
  }

  // ---------------------------------------------------------------- what a deploy meets

  /** Nothing worse than lock contention. */
  ghost predicate Mild(script: seq<Outcome>) {
    forall i :: 0 <= i < |script| ==> script[i] == Goes || script[i] == Contended
  }

  ghost function Contentions(script: seq<Outcome>): nat {
    if script == [] then 0 else Contentions(script[1..]) + if script[0] == Contended then 1 else 0
  }

  function At(script: seq<Outcome>, i: nat): Outcome {
    if i < |script| then script[i] else Goes
  }

  function Rest(script: seq<Outcome>, n: nat): seq<Outcome> {
    if n <= |script| then script[n..] else []
  }

  /** `used` entries were met: all but the last went through, and the last gave the outcome. */
  ghost predicate Faithful(before: seq<Outcome>, after: seq<Outcome>, used: nat, outcome: Outcome) {
    && after == Rest(before, used)
    && (forall i :: 0 <= i < used - 1 ==> At(before, i) == Goes)
    && outcome == if used == 0 then Goes else At(before, used - 1)
  }

  lemma FaithfulThen(a: seq<Outcome>, b: seq<Outcome>, c: seq<Outcome>, m: nat, n: nat, outcome: Outcome)
    requires Faithful(a, b, m, Goes) && Faithful(b, c, n, outcome)
    ensures Faithful(a, c, m + n, outcome)
  {
    assert forall i: nat :: At(Rest(a, m), i) == At(a, m + i);
    forall i | 0 <= i < m + n - 1
      ensures At(a, i) == Goes
    {
      if i >= m {
        assert At(b, i - m) == Goes;
      }
    }
  }

  /** In mild weather the outcome is never worse than contention, and contention uses up one of those in store. */
  lemma {:induction false} FaithfulSpends(before: seq<Outcome>, after: seq<Outcome>, used: nat, outcome: Outcome)
    requires Faithful(before, after, used, outcome) && Mild(before)
    ensures Mild(after) && (outcome == Goes || outcome == Contended)
    ensures Contentions(after) + (if outcome == Contended then 1 else 0) <= Contentions(before)
    decreases used
  {
    if used > 0 && before != [] {
      if used == 1 {
        assert after == before[1..];
      } else {
        assert At(before, 0) == Goes;
        assert forall i: nat :: At(before[1..], i) == At(before, i + 1);
        FaithfulSpends(before[1..], after, used - 1, outcome);
      }
    }
  }

  // ---------------------------------------------------------------- the runner

  /** Applied revisions include all their ancestors. */
  ghost predicate AncestorClosed(ms: seq<Migration>, applied: set<Revision>) {
    && applied <= Revisions(ms)
    && forall m <- ms :: m.revision in applied ==> forall p <- Parents(m) :: p in applied
  }

  /** What a database at `base` still has to run, in order. */
  ghost function Pending(order: seq<Revision>, base: set<Revision>): seq<Revision> {
    if order == [] then []
    else
      var earlier, last := Pending(order[..|order| - 1], base), order[|order| - 1];
      if last in base then earlier else earlier + [last]
  }

  /** The schema after clean runs of these migrations. */
  ghost function Clean<S>(body: map<Revision, Body<S>>, done: seq<Revision>, s: S): S
    requires forall r <- done :: r in body
  {
    if done == [] then s else Whole(body[done[|done| - 1]], Clean(body, done[..|done| - 1], s))
  }

  lemma PendingStep(order: seq<Revision>, base: set<Revision>, i: nat)
    requires i < |order|
    ensures Pending(order[..i + 1], base) ==
      if order[i] in base then Pending(order[..i], base) else Pending(order[..i], base) + [order[i]]
  {
    assert order[..i + 1][..i] == order[..i];
  }

  lemma {:induction false} PendingOfPrefix(order: seq<Revision>, base: set<Revision>, i: nat)
    requires i <= |order|
    ensures Pending(order[..i], base) <= Pending(order, base)
    ensures forall r <- Pending(order[..i], base) :: r in order[..i] && r !in base
    decreases |order|
  {
    if i < |order| {
      PendingOfPrefix(order[..|order| - 1], base, i);
      assert order[..|order| - 1][..i] == order[..i];
    } else if order != [] {
      PendingOfPrefix(order[..|order| - 1], base, |order| - 1);
      assert order[..i] == order && order[..|order| - 1][..|order| - 1] == order[..|order| - 1];
    }
  }

  /** Where a pass over the order stands in the list of what is pending. */
  lemma NextPending(order: seq<Revision>, base: set<Revision>, commits: seq<Revision>, i: nat)
    requires NoRepeats(order) && i < |order| && order[i] !in base
    requires Pending(order[..i], base) <= commits <= Pending(order, base)
    ensures order[i] in commits ==> Pending(order[..i + 1], base) <= commits
    ensures order[i] !in commits ==>
      commits == Pending(order[..i], base) && commits + [order[i]] <= Pending(order, base)
  {
    PendingStep(order, base, i);
    PendingOfPrefix(order, base, i);
    PendingOfPrefix(order, base, i + 1);
    var before, all := Pending(order[..i], base), Pending(order, base);
    assert all[|before|] == order[i];
    assert order[i] !in order[..i];
    if |commits| > |before| {
      assert commits[|before|] == order[i];
    } else {
      assert commits == before;
    }
  }

  class Runner<S(!new)> {
    const history: seq<Migration>
    const order: seq<Revision>
    const body: map<Revision, Body<S>>
    ghost const base: set<Revision>
    ghost const origin: S
    var applied: set<Revision>
    var schema: S
    var upcoming: seq<Outcome>
    ghost var commits: seq<Revision>

    /** The migrations, and the order in which alembic applies them. */
    ghost predicate Sound() {
      && Distinct(history) && Topological(history, order) && Elements(order) == Revisions(history)
      && forall r <- order :: r in body
    }

    /** What a replay asks of migrations that commit early. */
    ghost predicate AllReplayable() {
      forall r <- order :: r in body && Replayable(body[r])
    }

    ghost predicate Valid()
      reads this
    {
      Ledger() && (AllReplayable() ==> Tracks())
    }

    /** The version rows: ancestor-closed, and each commit the next pending migration. */
    ghost predicate Ledger()
      reads this`applied, this`commits
    {
      && Sound()
      && AncestorClosed(history, applied)
      && base !! Elements(commits) && applied == base + Elements(commits) && NoRepeats(commits)
      && commits <= Pending(order, base) && InOrder()
    }

    ghost predicate InOrder() {
      forall r <- Pending(order, base) :: r in body
    }

    /** The schema is the clean one, or will be once the migration that was cut short completes. */
    ghost predicate Tracks()
      reads this`commits, this`schema
      requires commits <= Pending(order, base) && InOrder()
    {
      var clean, pending := Clean(body, commits, origin), Pending(order, base);
      schema == clean || (|commits| < |pending| && SameAfter(body[pending[|commits|]], schema, clean))
    }

    /**
     Everything is applied, each migration once and in order; and if the migrations are replayable
     the schema is that of a clean deploy.
     */
    ghost predicate Deployed()
      reads this
      requires InOrder()
    {
      && applied == Revisions(history) && commits == Pending(order, base)
      && (AllReplayable() ==> schema == Clean(body, Pending(order, base), origin))
    }

    constructor (history: seq<Migration>, order: seq<Revision>, body: map<Revision, Body<S>>,
                 applied: set<Revision>, schema: S, upcoming: seq<Outcome>)
      requires Distinct(history) && Topological(history, order) && Elements(order) == Revisions(history)
      requires forall r <- order :: r in body
      requires AncestorClosed(history, applied)
      ensures Valid() && this.applied == applied && base == applied && commits == []
      ensures this.history == history && this.order == order && this.body == body
      ensures this.schema == schema && origin == schema && this.upcoming == upcoming
    {
      this.history, this.order, this.body := history, order, body;
      this.applied, this.schema, this.upcoming := applied, schema, upcoming;
      base, origin, commits := applied, schema, [];
      assert order[..|order|] == order;
      PendingOfPrefix(order, applied, |order|);
    }

    method NextOutcome() returns (outcome: Outcome)
      modifies this`upcoming
      ensures Faithful(old(upcoming), upcoming, 1, outcome)
    {
      if upcoming == [] {
        return Goes;
      }
      outcome, upcoming := upcoming[0], upcoming[1..];
    }

    /** Commit the last part of migration `order[i]` together with its version row. */
    method Commit(i: nat)
      requires Valid() && i < |order| && order[i] !in applied && Elements(order[..i]) <= applied
      requires commits + [order[i]] <= Pending(order, base)
      requires AllReplayable() ==> body[order[i]].last(schema) == Whole(body[order[i]], Clean(body, commits, origin))
      modifies this`applied, this`commits, this`schema
      ensures Valid() && applied == old(applied) + {order[i]} && commits == old(commits) + [order[i]]
    {
      var r := order[i];
      forall m | m in history && m.revision == r
        ensures forall p <- Parents(m) :: p in applied
      {
        assert forall p <- Parents(m) :: p in order[..i];
        assert forall p <- Parents(m) :: p in Elements(order[..i]);
      }
      assert r in Elements(order);
      assert Elements(commits + [r]) == Elements(commits) + {r};
      assert r !in Elements(commits);
      assert (commits + [r])[..|commits|] == commits;
      applied, commits, schema := applied + {r}, commits + [r], body[r].last(schema);
    }

    /** Run migration `order[i]` from its top: each early part commits by itself, then the rest. */
    method Migrate(i: nat) returns (outcome: Outcome, ghost used: nat)
      requires Valid() && i < |order| && order[i] !in applied && Elements(order[..i]) <= applied
      requires commits + [order[i]] <= Pending(order, base)
      modifies this
      ensures Valid()
      ensures outcome == Contended || outcome == Fails ==> commits == old(commits) && applied == old(applied)
      ensures (commits == old(commits) && applied == old(applied) && outcome != Goes) ||
              (commits == old(commits) + [order[i]] && applied == old(applied) + {order[i]})
      ensures Faithful(old(upcoming), upcoming, used, outcome)
      ensures outcome == Goes ==> used == |body[order[i]].early| + 1
    {
      var b := body[order[i]];
      assert Pending(order, base)[|commits|] == order[i];
      ghost var clean := Clean(body, commits, origin);
      assert AllReplayable() ==> SameAfter(b, schema, clean);
      outcome, used := RunEarly(b);
      assert Ledger() && (AllReplayable() ==> SameAfter(b, schema, clean));
      if outcome != Goes {
        return;
      }
      assert b.early[..used] == b.early;
      assert AllReplayable() ==> b.last(schema) == Whole(b, clean);
      ghost var script := upcoming;
      outcome := NextOutcome();
      FaithfulThen(old(upcoming), script, upcoming, used, 1, outcome);
      used := used + 1;
      if outcome == Goes || outcome == Unheard {
        Commit(i);
      }
    }

    /** The parts that commit early; the script may stop after any of them. */
    method RunEarly(b: Body<S>) returns (outcome: Outcome, ghost used: nat)
      modifies this`schema, this`upcoming
      ensures Faithful(old(upcoming), upcoming, used, outcome)
      ensures used <= |b.early| && (outcome == Goes ==> used == |b.early|)
      ensures schema == Play(b.early[..if outcome == Goes || outcome == Unheard then used else used - 1], old(schema))
      ensures Replayable(b) ==> SameAfter(b, schema, old(schema))
    {
      outcome, used := Goes, 0;
      for k := 0 to |b.early|
        invariant schema == Play(b.early[..k], old(schema)) && outcome == Goes && used == k
        invariant Replayable(b) ==> SameAfter(b, schema, old(schema))
        invariant Faithful(old(upcoming), upcoming, used, Goes)
      {
        OnePartMore(b, old(schema), k);
        ghost var script := upcoming;
        outcome := NextOutcome();
        FaithfulThen(old(upcoming), script, upcoming, used, 1, outcome);
        used := used + 1;
        if outcome == Goes || outcome == Unheard {
          schema := b.early[k](schema);
        }
        if outcome != Goes {
          return;
        }
      }
    }

    /** One place in the order: nothing to do, or the next migration to run. */
    method RunNext(i: nat, ghost script: seq<Outcome>, ghost before: nat) returns (outcome: Outcome, ghost used: nat)
      requires Valid() && i < |order| && Faithful(script, upcoming, before, Goes)
      requires Elements(order[..i]) <= applied && Pending(order[..i], base) <= commits
      modifies this
      ensures Valid() && old(applied) <= applied && old(commits) <= commits
      ensures outcome == Goes ==> Elements(order[..i + 1]) <= applied && Pending(order[..i + 1], base) <= commits
      ensures Faithful(script, upcoming, used, outcome) && |commits| - |old(commits)| <= used - before
    {
      assert order[..i + 1] == order[..i] + [order[i]];
      PendingStep(order, base, i);
      if order[i] !in base {
        NextPending(order, base, commits, i);
      }
      if order[i] in applied {
        return Goes, before;
      }
      outcome, used := Migrate(i);
      FaithfulThen(script, old(upcoming), upcoming, before, used, outcome);
      used := before + used;
    }

    /** One connection: apply what is missing, oldest first. */
    method RunPending() returns (outcome: Outcome, ghost used: nat)
      requires Valid()
      modifies this
      ensures Valid() && old(applied) <= applied && old(commits) <= commits
      ensures outcome == Goes ==> Deployed()
      ensures Faithful(old(upcoming), upcoming, used, outcome) && 1 + |commits| - |old(commits)| <= used
    {
      outcome := NextOutcome();
      used := 1;
      if outcome != Goes {
        return;
      }
      for i := 0 to |order|
        invariant Valid() && old(applied) <= applied && old(commits) <= commits
        invariant Elements(order[..i]) <= applied && Pending(order[..i], base) <= commits
        invariant outcome == Goes && Faithful(old(upcoming), upcoming, used, Goes)
        invariant 1 + |commits| - |old(commits)| <= used
      {
        outcome, used := RunNext(i, old(upcoming), used);
        if outcome != Goes {
          return;
        }
      }
      assert order[..|order|] == order;
    }

    /** Replay on contention, at most RUN_MAX_ATTEMPTS times; `done` is a normal return, otherwise it raises. */
    method Run() returns (done: bool, attempts: nat, last: Outcome)
      requires Valid()
      modifies this
      ensures Valid() && old(applied) <= applied && old(commits) <= commits
      ensures 1 <= attempts <= 4
      ensures done <==> last == Goes
      ensures done ==> Deployed()
      ensures last == Contended ==> attempts == 4
      ensures Mild(old(upcoming)) && Contentions(old(upcoming)) < 4 ==> done
    {
      attempts, last := 0, Contended;
      while last == Contended && attempts < RUN_MAX_ATTEMPTS
        invariant Valid() && old(applied) <= applied && old(commits) <= commits
        invariant attempts <= RUN_MAX_ATTEMPTS && (attempts == 0 ==> last == Contended)
        invariant last == Goes ==> Deployed()
        invariant Mild(old(upcoming)) ==>
          && Mild(upcoming) && (last == Goes || last == Contended)
          && (last == Contended ==> Contentions(upcoming) + attempts <= Contentions(old(upcoming)))
        decreases RUN_MAX_ATTEMPTS - attempts
      {
        ghost var script, used := upcoming, 0;
        last, used := RunPending();
        if Mild(script) {
          FaithfulSpends(script, upcoming, used, last);
        }
        attempts := attempts + 1;
      }
      done := last == Goes;
    }
  }

  /**
   Deploys one after the other until one returns normally, each disturbed in its own way: the one
   that does leaves what a single clean deploy would, and one that only meets contention, fewer than
   four times, always does.
   */
  method Redeploy<S(!new)>(r: Runner<S>, scripts: seq<seq<Outcome>>) returns (done: bool)
    requires r.Valid()
    modifies r
    ensures r.Valid() && old(r.commits) <= r.commits
    ensures done ==> r.Deployed()
    ensures (exists script <- scripts :: Mild(script) && Contentions(script) < 4) ==> done
  {
    done := false;
    var k := 0;
    while k < |scripts| && !done
      invariant 0 <= k <= |scripts| && r.Valid() && old(r.commits) <= r.commits
      invariant done ==> r.Deployed()
      invariant !done ==> forall script <- scripts[..k] :: !(Mild(script) && Contentions(script) < 4)
    {
      done := DeployOnce(r, scripts[k]);
      k := k + 1;
    }
  }

  method DeployOnce<S(!new)>(r: Runner<S>, script: seq<Outcome>) returns (done: bool)
    requires r.Valid()
    modifies r
    ensures r.Valid() && old(r.commits) <= r.commits
    ensures done ==> r.Deployed()
    ensures Mild(script) && Contentions(script) < 4 ==> done
  {
    r.upcoming := script;
    var attempts, last;
    done, attempts, last := r.Run();
  }
}
