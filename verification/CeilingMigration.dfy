/**
 The migration program itself: bounded retries, a page walk, a convergence sweep and one locked
 final transaction, run against a table the application keeps writing to.

 `upcoming` scripts the outside world: before each statement, which application writes commit,
 and then what the statement meets. A process killed at a statement is, on the table's side, a
 statement that never committed or one whose commit went unheard. Every method records what it did in
 `history` and proves that the table is the result of that run, which ties the program to the
 theorems of `ChargeCeiling`.
 */
module CeilingMigration {
  import opened Options
  import opened Attempts
  import opened ChargeCeiling

  datatype Attempt = Attempt(writes: seq<Write>, outcome: Outcome)

  /** The sweep chooses its rows when it executes, so it is not a fixed transaction. */
  datatype Statement = Exactly(tx: Transaction) | SweepBatch

  ghost predicate OnlyWrites(steps: seq<Step>) {
    forall s <- steps :: s.Served?
  }

  /** Rows stored or moved by the application in these steps. */
  ghost function Written(steps: seq<Step>): set<Id> {
    set s | s in steps && s.Served? && !s.write.Remove? :: s.write.id
  }

  /** A NULL ceiling was already there, on the same page, unless the application wrote the row. */
  ghost predicate NullsAccounted(before: Table, after: Table, steps: seq<Step>) {
    forall id <- Nulls(after) :: id in Written(steps) || (id in before.rows && before.rows[id] == after.rows[id])
  }

  ghost predicate Drops(st: Statement) {
    st.Exactly? && (st.tx.DropColumn? || st.tx.DropVersion?)
  }

  // ---------------------------------------------------------------- the outside world's script

  /** What attempt number `i` of a script meets; past its end nothing is in the way. */
  function MetAt(script: seq<Attempt>, i: nat): Outcome {
    if i < |script| then script[i].outcome else Goes
  }

  function Rest(script: seq<Attempt>, n: nat): seq<Attempt> {
    if n <= |script| then script[n..] else []
  }

  ghost function NextWrites(script: seq<Attempt>): seq<Step> {
    if script == [] then [] else ServedAll(script[0].writes)
  }

  ghost function ServedAll(writes: seq<Write>): seq<Step> {
    seq(|writes|, i requires 0 <= i < |writes| => Served(writes[i]))
  }

  /** No contention and no failure, whatever the application writes. */
  ghost predicate AllGo(script: seq<Attempt>) {
    forall i :: 0 <= i < |script| ==> script[i].outcome == Goes
  }

  /** The first `n` attempts meet contention, and nothing goes wrong after that. */
  ghost predicate ContendedFirst(script: seq<Attempt>, n: nat) {
    && n <= |script|
    && (forall i :: 0 <= i < n ==> script[i].outcome == Contended)
    && AllGo(script[n..])
  }

  /** The statement needs nothing it cannot have: a fill or the final step needs the column. */
  ghost predicate Runs(st: Statement, t: Table) {
    t.hasColumn || (st.Exactly? && !st.tx.FillPages? && !st.tx.FillRows? && !st.tx.Finalize?)
  }

  // ---------------------------------------------------------------- the program

  class Database {
    var table: Table
    var upcoming: seq<Attempt>
    ghost var history: seq<Step>
    ghost const origin: Table

    ghost predicate Valid()
      reads this
    {
      Start(origin) && table == RunTo(origin, history)
    }

    constructor (table: Table, upcoming: seq<Attempt>)
      requires Start(table)
      ensures Valid() && this.table == table && this.upcoming == upcoming && history == []
    {
      this.table, this.upcoming := table, upcoming;
      origin, history := table, [];
    }

    /** Take one step and record it. */
    method Record(step: Step)
      requires Valid()
      modifies this`table, this`history
      ensures Valid()
      ensures history == old(history) + [step] && table == StepTo(old(table), step)
    {
      assert (history + [step])[..|history|] == history;
      table, history := StepTo(table, step), history + [step];
    }

    /** One application write lands. */
    method LandWrite(w: Write)
      requires Valid()
      modifies this`table, this`history
      ensures Valid() && history == old(history) + [Served(w)]
      ensures NullsAccounted(old(table), table, [Served(w)]) && SameSchema(old(table), table)
    {
      assert NullsAccounted(table, table, []);
      WriteAccounted(table, table, [], Served(w));
      assert [] + [Served(w)] == [Served(w)];
      ServeExactly(table, w, w.id);
      Record(Served(w));
    }

    /** The application's writes land, then the next statement meets its outcome. */
    method Await() returns (outcome: Outcome)
      requires Valid()
      modifies this
      ensures Valid() && history == old(history) + NextWrites(old(upcoming))
      ensures NullsAccounted(old(table), table, NextWrites(old(upcoming)))
      ensures outcome == MetAt(old(upcoming), 0) && upcoming == Rest(old(upcoming), 1)
      ensures SameSchema(old(table), table)
    {
      if upcoming == [] {
        return Goes;
      }
      var attempt := upcoming[0];
      upcoming := upcoming[1..];
      for i := 0 to |attempt.writes|
        invariant Valid() && history == old(history) + ServedAll(attempt.writes[..i]) && upcoming == old(upcoming)[1..]
        invariant SameSchema(old(table), table)
        invariant NullsAccounted(old(table), table, ServedAll(attempt.writes[..i]))
      {
        ghost var t := table;
        LandWrite(attempt.writes[i]);
        assert ServedAll(attempt.writes[..i + 1]) == ServedAll(attempt.writes[..i]) + [Served(attempt.writes[i])];
        AccountedTwice(old(table), t, table, ServedAll(attempt.writes[..i]), [Served(attempt.writes[i])]);
      }
      assert attempt.writes[..|attempt.writes|] == attempt.writes;
      outcome := attempt.outcome;
    }

    /** Choose up to SWEEP_ROWS rows that are NULL right now. */
    method PickBatch() returns (ids: set<Id>)
      ensures ids <= Nulls(table)
      ensures |ids| == if |Nulls(table)| < SWEEP_ROWS then |Nulls(table)| else SWEEP_ROWS
    {
      ids := {};
      var rest := Nulls(table);
      while rest != {} && |ids| < SWEEP_ROWS
        invariant ids !! rest && ids + rest == Nulls(table) && |ids| <= SWEEP_ROWS
        invariant |ids| + |rest| == |Nulls(table)|
        decreases |rest|
      {
        var id :| id in rest;
        ids, rest := ids + {id}, rest - {id};
      }
    }

    /** BEGIN, the statements, COMMIT; or a statement error and nothing changed. */
    method Commit(st: Statement) returns (ok: bool, ghost tx: Transaction)
      requires Valid()
      modifies this`table, this`history
      ensures Valid() && Executes(st, tx)
      ensures ok <==> Runs(st, old(table))
      ensures !ok ==> history == old(history) && table == old(table)
      ensures ok ==> history == old(history) + [Committed(tx)] && table == StepTo(old(table), Committed(tx))
      ensures ok ==> Settled(tx, table) && Marked(tx, old(table), table)
      ensures ok && st.SweepBatch? ==>
        |Nulls(table)| == if |Nulls(old(table))| <= 20000 then 0 else |Nulls(old(table))| - 20000
      ensures Pinning(st, ok, old(table.pinned), table)
    {
      var statement;
      match st {
        case Exactly(t) => statement := t;
        case SweepBatch => var ids := PickBatch(); statement := FillRows(ids); FillShrinks(table, ids);
      }
      tx := statement;
      ok := Apply(table, statement).Some?;
      ApplyExactly(table, statement);
      if ok {
        if statement.Finalize? {
          FinalizeSucceeds(origin, history);
        }
        CommitSettles(table, statement);
        Record(Committed(statement));
      }
    }

    /** One attempt: the application's writes, then the transaction, as far as the script lets it. */
    method TryOnce(st: Statement) returns (outcome: Outcome)
      requires Valid()
      modifies this
      ensures Valid() && old(history) <= history && upcoming == Rest(old(upcoming), 1)
      ensures outcome == Seen(st, old(table), MetAt(old(upcoming), 0))
      ensures Progressed(st, old(table), table, history[|old(history)|..], Lands(st, old(table), MetAt(old(upcoming), 0)))
      ensures Lands(st, old(table), MetAt(old(upcoming), 0)) ==> ResidueAccounted(old(table), origin, history, |old(history)|)
    {
      outcome := Await();
      ghost var t1, writes := table, NextWrites(old(upcoming));
      assert history[|old(history)|..] == writes;
      ServedOnlyWrites(old(upcoming));
      if outcome == Goes || outcome == Unheard {
        ghost var mark := history;
        ghost var tx;
        var ok;
        ok, tx := Commit(st);
        if ok {
          assert history[|old(history)|..] == writes + [Committed(tx)] && history[..|history| - 1] == mark;
          assert mark[|old(history)|..] == writes;
          CommitAccounted(old(table), t1, writes, tx);
          CommitLands(st, writes, tx);
        } else if outcome == Goes {
          outcome := Fails;
        }
      }
    }

    /** Attempt number `attempt` of a statement that has only met contention since `before`. */
    method TryAgain(st: Statement, ghost before: Table, ghost since: seq<Step>, ghost script: seq<Attempt>, ghost attempt: nat)
      returns (outcome: Outcome)
      requires Valid() && since <= history && upcoming == Rest(script, attempt)
      requires Progressed(st, before, table, history[|since|..], false)
      modifies this
      ensures Valid() && since <= history && upcoming == Rest(script, attempt + 1)
      ensures outcome == Seen(st, before, MetAt(script, attempt))
      ensures Progressed(st, before, table, history[|since|..], Lands(st, before, MetAt(script, attempt)))
      ensures outcome == Goes ==> |since| < |history| && ResidueAccounted(before, origin, history, |since|)
    {
      ghost var t0, mark := table, history;
      RestMeets(script, attempt);
      outcome := TryOnce(st);
      ProgressedLater(st, before, t0, table, since, mark, history, origin, Lands(st, t0, MetAt(script, attempt)));
    }

    /** Run one transaction, replaying it while it only meets lock contention. */
    method WithRetry(st: Statement) returns (ok: bool, ghost tries: nat)
      requires Valid()
      modifies this
      ensures Valid() && old(history) <= history
      ensures 1 <= tries <= 12 && upcoming == Rest(old(upcoming), tries)
      ensures forall i :: 0 <= i < tries - 1 ==> MetAt(old(upcoming), i) == Contended
      ensures MetAt(old(upcoming), tries - 1) == Contended ==> tries == 12
      ensures ok <==> Runs(st, old(table)) && MetAt(old(upcoming), tries - 1) == Goes
      ensures Progressed(st, old(table), table, history[|old(history)|..], Lands(st, old(table), MetAt(old(upcoming), tries - 1)))
      ensures ok ==> ResidueAccounted(old(table), origin, history, |old(history)|)
    {
      var attempt, outcome := 0, Contended;
      while outcome == Contended && attempt < MAX_ATTEMPTS
        invariant Valid() && old(history) <= history && attempt <= MAX_ATTEMPTS
        invariant forall i :: 0 <= i < attempt - 1 ==> MetAt(old(upcoming), i) == Contended
        invariant upcoming == Rest(old(upcoming), attempt)
        invariant attempt == 0 ==> outcome == Contended
        invariant attempt > 0 ==> outcome == Seen(st, old(table), MetAt(old(upcoming), attempt - 1))
        invariant Progressed(st, old(table), table, history[|old(history)|..],
                             attempt > 0 && Lands(st, old(table), MetAt(old(upcoming), attempt - 1)))
        invariant outcome == Goes ==> |old(history)| < |history| && ResidueAccounted(old(table), origin, history, |old(history)|)
        invariant outcome == Contended ==> Progressed(st, old(table), table, history[|old(history)|..], false)
        decreases MAX_ATTEMPTS - attempt
      {
        outcome := TryAgain(st, old(table), old(history), old(upcoming), attempt);
        attempt := attempt + 1;
      }
      ok, tries := outcome == Goes, attempt;
    }

    /** The page walk: afterwards a NULL is a row the application stored or moved since it began. */
    method WalkPages() returns (ok: bool)
      requires Valid()
      modifies this
      ensures Valid() && old(history) <= history
      ensures ok ==> forall id <- Nulls(table) :: id in Written(history[|old(history)|..])
      ensures forall s <- history[|old(history)|..] :: s.Committed? ==> s.tx.FillPages? && s.tx.hi == s.tx.lo + 2000
      ensures SameSchema(old(table), table)
      ensures AllGo(old(upcoming)) ==> AllGo(upcoming) && (old(table.hasColumn) ==> ok)
      ensures ok ==> table.hasColumn
    {
      var total := table.pages + 1;
      RunKeepsSound(origin, history);
      var start := 0;
      ok := true;
      while start < total
        invariant Valid() && old(history) <= history
        invariant forall s <- history[|old(history)|..] :: s.Committed? ==> s.tx.FillPages? && s.tx.hi == s.tx.lo + 2000
        invariant SameSchema(old(table), table)
        invariant forall id <- Nulls(table) ::
          id in Written(history[|old(history)|..]) || start <= table.rows[id].page < total
        invariant AllGo(old(upcoming)) ==> AllGo(upcoming)
        invariant ok && (start > 0 ==> table.hasColumn)
        decreases total - start
      {
        ghost var mark, script := history, upcoming;
        var end := start + BACKFILL_PAGES;
        ghost var tries;
        ok, tries := WithRetry(Exactly(FillPages(start, end)));
        SuffixSplits(old(history), mark, history);
        LandedAtMost(Exactly(FillPages(start, end)), history[|mark|..]);
        RestGoes(script, tries);
        if !ok {
          return;
        }
        start := end;
      }
    }

    /** One pass of the sweep: a count, and a batch unless it found nothing. */
    method SweepOnce() returns (ok: bool, empty: bool)
      requires Valid()
      modifies this
      ensures Valid() && old(history) <= history
      ensures NullsAccounted(old(table), table, history[|old(history)|..])
      ensures forall s <- history[|old(history)|..] :: s.Committed? ==> s.tx.FillRows?
      ensures SameSchema(old(table), table)
      ensures ok ==> Sweeps(history[|old(history)|..]) == if empty then 0 else 1
      ensures ok && empty ==> Nulls(table) == {}
      ensures AllGo(old(upcoming)) ==> AllGo(upcoming) && (old(table.hasColumn) ==> ok)
    {
      var outcome := Await();
      ServedOnlyWrites(old(upcoming));
      ghost var mark, t0, script := history, table, upcoming;
      assert mark[|old(history)|..] == NextWrites(old(upcoming));
      NoSweeps(mark[|old(history)|..]);
      RestGoes(old(upcoming), 1);
      empty := Nulls(table) == {};
      if outcome != Goes || empty {
        return outcome == Goes, empty;
      }
      ghost var tries;
      ok, tries := WithRetry(SweepBatch);
      LandedAtMost(SweepBatch, history[|mark|..]);
      Appended(old(table), t0, table, old(history), mark, history);
      RestGoes(script, tries);
      if ok {
        LandedIsOneSweep(history[|mark|..]);
      }
    }

    /** The sweep: batches of NULL rows until a count finds none, twelve batches at most. */
    method SweepResidue() returns (ok: bool)
      requires Valid()
      modifies this
      ensures Valid() && old(history) <= history
      ensures NullsAccounted(old(table), table, history[|old(history)|..])
      ensures ok ==> Nulls(table) == {} || Sweeps(history[|old(history)|..]) == 12
      ensures forall s <- history[|old(history)|..] :: s.Committed? ==> s.tx.FillRows?
      ensures SameSchema(old(table), table)
      ensures AllGo(old(upcoming)) ==> AllGo(upcoming) && (old(table.hasColumn) ==> ok)
    {
      for pass := 0 to MAX_ATTEMPTS
        invariant Valid() && old(history) <= history
        invariant forall s <- history[|old(history)|..] :: s.Committed? ==> s.tx.FillRows?
        invariant SameSchema(old(table), table)
        invariant NullsAccounted(old(table), table, history[|old(history)|..])
        invariant Sweeps(history[|old(history)|..]) == pass
        invariant AllGo(old(upcoming)) ==> AllGo(upcoming)
      {
        ghost var mark, t0 := history, table;
        var empty;
        ok, empty := SweepOnce();
        Appended(old(table), t0, table, old(history), mark, history);
        if !ok || empty {
          return;
        }
      }
      ok := true;
    }

    /** Walk the page ranges the table had when the walk began, then sweep what was appended. */
    method Backfill() returns (ok: bool)
      requires Valid()
      modifies this
      ensures Valid() && old(history) <= history
      ensures ok ==> forall id <- Nulls(table) :: id in Written(history[|old(history)|..])
      ensures ok ==> Nulls(table) == {} || Sweeps(history[|old(history)|..]) == 12
      ensures forall s <- history[|old(history)|..] :: s.Committed? ==> s.tx.FillPages? || s.tx.FillRows?
      ensures SameSchema(old(table), table)
      ensures AllGo(old(upcoming)) ==> AllGo(upcoming) && (ok <==> old(table.hasColumn))
    {
      var outcome := Await();
      ServedOnlyWrites(old(upcoming));
      ghost var mark := history;
      assert mark[|old(history)|..] == NextWrites(old(upcoming));
      RestGoes(old(upcoming), 1);
      if outcome != Goes {
        return false;
      }
      ok := WalkPages();
      SuffixSplits(old(history), mark, history);
      WrittenConcat(mark[|old(history)|..], history[|mark|..]);
      NoSweeps(history[|old(history)|..]);
      if !ok {
        return;
      }
      ghost var t0 := table;
      mark := history;
      ok := SweepResidue();
      SuffixSplits(old(history), mark, history);
      SweepsConcat(mark[|old(history)|..], history[|mark|..]);
      StillWritten(t0, table, mark[|old(history)|..], history[|mark|..]);
    }

    /** The two metadata-only additions, grants first. */
    method AddColumns() returns (ok: bool)
      requires Valid()
      modifies this
      ensures Valid() && old(history) <= history
      ensures forall s <- history[|old(history)|..] :: s.Committed? ==> s.tx.AddVersion? || s.tx.AddColumn?
      ensures table.pinned == old(table.pinned) && (ok ==> table.versioned && table.hasColumn)
      ensures (exists n :: 0 <= n < 12 && ContendedFirst(old(upcoming), n)) ==> ok && AllGo(upcoming)
    {
      ghost var tries;
      ok, tries := WithRetry(Exactly(AddVersion));
      LandedAtMost(Exactly(AddVersion), history[|old(history)|..]);
      ContentionPasses(old(upcoming), tries);
      if !ok {
        return;
      }
      ghost var mark, script := history, upcoming;
      ok, tries := WithRetry(Exactly(AddColumn));
      SuffixSplits(old(history), mark, history);
      LandedAtMost(Exactly(AddColumn), history[|mark|..]);
      RestGoes(script, tries);
    }

    /** The whole upgrade; it may be called again from any state an earlier call left behind. */
    method Upgrade() returns (ok: bool)
      requires Valid()
      modifies this
      ensures Valid() && old(history) <= history && Sound(table)
      ensures NoDrops(history[|old(history)|..])
      ensures ok ==> table.versioned && table.pinned && Nulls(table) == {}
      ensures ok ==> FinishedBy(origin, history, |old(history)|)
      ensures ok && !old(table.pinned) ==> forall id <- table.rows :: CarriesReservation(table.rows[id])
      ensures (exists n :: 0 <= n < 12 && ContendedFirst(old(upcoming), n)) ==> ok
    {
      ok := AddColumns();
      RunKeepsSound(origin, history);
      if !ok {
        return;
      }
      ghost var mark := history;
      ok := Backfill();
      RunKeepsSound(origin, history);
      SuffixSplits(old(history), mark, history);
      WrittenConcat(mark[|old(history)|..], history[|mark|..]);
      if !ok {
        return;
      }
      ghost var t0, script, tries := table, upcoming, 0;
      mark := history;
      ok, tries := WithRetry(Exactly(Finalize));
      RunKeepsSound(origin, history);
      SuffixSplits(old(history), mark, history);
      LandedAtMost(Exactly(Finalize), history[|mark|..]);
      RestGoes(script, tries);
      if ok {
        ResidueIsFresh(t0, origin, old(history), mark, history);
      }
    }

    method Downgrade() returns (ok: bool)
      requires Valid()
      modifies this
      ensures Valid() && old(history) <= history && Sound(table)
      ensures ok ==> !table.hasColumn && !table.pinned && !table.versioned
      ensures (exists n :: 0 <= n < 12 && ContendedFirst(old(upcoming), n)) ==> ok
    {
      ghost var tries;
      ok, tries := WithRetry(Exactly(DropVersion));
      ContentionPasses(old(upcoming), tries);
      if ok {
        ghost var script := upcoming;
        ok, tries := WithRetry(Exactly(DropColumn));
        RestGoes(script, tries);
      }
      RunKeepsSound(origin, history);
    }
  }

  // ---------------------------------------------------------------- bookkeeping

  lemma SuffixSplits(a: seq<Step>, b: seq<Step>, c: seq<Step>)
    requires a <= b <= c
    ensures c[|a|..] == b[|a|..] + c[|b|..]
  {
  }

  /** `steps` commit nothing, or just this statement. */
  ghost predicate AtMost(st: Statement, steps: seq<Step>) {
    forall s <- steps :: s.Committed? ==> s == steps[|steps| - 1] && Landed(st, steps)
  }

  lemma CommitLands(st: Statement, writes: seq<Step>, tx: Transaction)
    requires OnlyWrites(writes) && Executes(st, tx)
    ensures Landed(st, writes + [Committed(tx)])
  {
    assert (writes + [Committed(tx)])[..|writes|] == writes;
  }

  lemma LandedAtMost(st: Statement, steps: seq<Step>)
    requires OnlyWrites(steps) || Landed(st, steps)
    ensures AtMost(st, steps)
  {
    if Landed(st, steps) {
      assert steps == steps[..|steps| - 1] + [steps[|steps| - 1]];
    }
  }

  ghost predicate SameSchema(before: Table, after: Table) {
    after.hasColumn == before.hasColumn && after.pinned == before.pinned && after.versioned == before.versioned
  }

  /** What the client sees: a statement error, or what the attempt met. */
  ghost function Seen(st: Statement, t: Table, met: Outcome): Outcome {
    if met == Goes && !Runs(st, t) then Fails else met
  }

  ghost predicate Lands(st: Statement, t: Table, met: Outcome) {
    Runs(st, t) && (met == Goes || met == Unheard)
  }

  /** How a transaction moves the schema. */
  ghost predicate Marked(tx: Transaction, before: Table, after: Table) {
    && after.versioned == (if tx.AddVersion? then true else if tx.DropVersion? then false else before.versioned)
    && after.hasColumn == (if tx.AddColumn? then true else if tx.DropColumn? then false else before.hasColumn)
    && after.pinned == (if tx.Finalize? then true else if tx.DropColumn? then false else before.pinned)
  }

  /** What attempts at a statement did to the table, `landed` telling whether it was committed. */
  ghost predicate Progressed(st: Statement, before: Table, after: Table, steps: seq<Step>, landed: bool) {
    && (if landed then Landed(st, steps) && Marked(steps[|steps| - 1].tx, before, after)
        else OnlyWrites(steps) && SameSchema(before, after))
    && (!Drops(st) || !landed ==> NullsAccounted(before, after, steps))
    && (landed && st.Exactly? ==> Settled(st.tx, after))
    && Pinning(st, landed, before.pinned, after)
  }

  /** A NULL the last commit found was there before, or the application wrote its row since. */
  ghost predicate ResidueAccounted(before: Table, origin: Table, history: seq<Step>, mark: nat)
    requires mark < |history|
  {
    NullsAccounted(before, RunTo(origin, history[..|history| - 1]), history[mark..|history| - 1])
  }

  ghost function Sweeps(steps: seq<Step>): nat {
    if steps == [] then 0
    else Sweeps(steps[..|steps| - 1]) + match steps[|steps| - 1] case Committed(FillRows(_)) => 1 case _ => 0
  }

  lemma {:induction false} SweepsConcat(a: seq<Step>, b: seq<Step>)
    ensures Sweeps(a + b) == Sweeps(a) + Sweeps(b)
  {
    if b == [] {
      assert a + b == a;
    } else {
      assert (a + b)[..|a + b| - 1] == a + b[..|b| - 1];
      SweepsConcat(a, b[..|b| - 1]);
    }
  }

  lemma {:induction false} NoSweeps(steps: seq<Step>)
    requires forall s <- steps :: s.Committed? ==> !s.tx.FillRows?
    ensures Sweeps(steps) == 0
  {
    if steps != [] {
      assert forall s <- steps[..|steps| - 1] :: s in steps;
      assert steps[|steps| - 1] in steps;
      NoSweeps(steps[..|steps| - 1]);
    }
  }

  lemma LandedIsOneSweep(steps: seq<Step>)
    requires Landed(SweepBatch, steps)
    ensures Sweeps(steps) == 1
  {
    NoSweeps(steps[..|steps| - 1]);
  }

  lemma ServedOnlyWrites(script: seq<Attempt>)
    ensures OnlyWrites(NextWrites(script))
  {
  }

  lemma RestMeets(script: seq<Attempt>, n: nat)
    ensures MetAt(Rest(script, n), 0) == MetAt(script, n) && Rest(Rest(script, n), 1) == Rest(script, n + 1)
  {
  }

  /** Filling some NULL rows leaves just the others NULL. */
  lemma FillShrinks(t: Table, ids: set<Id>)
    requires ids <= Nulls(t)
    ensures Nulls(Fill(t, ids)) == Nulls(t) - ids && |Nulls(Fill(t, ids))| == |Nulls(t)| - |ids|
  {
    assert Nulls(Fill(t, ids)) == Nulls(t) - ids;
  }

  lemma ProgressedLater(st: Statement, before: Table, middle: Table, after: Table,
                        h0: seq<Step>, h1: seq<Step>, h2: seq<Step>, origin: Table, landed: bool)
    requires h0 <= h1 <= h2 && Progressed(st, before, middle, h1[|h0|..], false)
    requires Progressed(st, middle, after, h2[|h1|..], landed)
    requires landed ==> |h1| < |h2| && ResidueAccounted(middle, origin, h2, |h1|)
    ensures Progressed(st, before, after, h2[|h0|..], landed) && (Runs(st, before) <==> Runs(st, middle))
    ensures landed ==> ResidueAccounted(before, origin, h2, |h0|)
  {
    var first, rest := h1[|h0|..], h2[|h1|..];
    SuffixSplits(h0, h1, h2);
    if !Drops(st) || !landed {
      AccountedTwice(before, middle, after, first, rest);
    }
    if landed {
      assert (first + rest)[..|first + rest| - 1] == first + rest[..|rest| - 1];
      assert h2[|h0|..|h2| - 1] == first + h2[|h1|..|h2| - 1];
      AccountedTwice(before, middle, RunTo(origin, h2[..|h2| - 1]), first, h2[|h1|..|h2| - 1]);
    }
  }

  /** The final transaction was the last step, and the only NULLs it met were on rows written during this run. */
  ghost predicate FinishedBy(origin: Table, history: seq<Step>, mark: nat) {
    && mark < |history| && history[|history| - 1] == Committed(Finalize)
    && forall id <- Nulls(RunTo(origin, history[..|history| - 1])) :: id in Written(history[mark..])
  }

  lemma WrittenConcat(a: seq<Step>, b: seq<Step>)
    ensures Written(a + b) == Written(a) + Written(b)
  {
  }

  /** Without trouble ahead an attempt meets none, and none is left behind. */
  lemma RestGoes(script: seq<Attempt>, n: nat)
    ensures AllGo(script) ==> AllGo(Rest(script, n)) && forall i: nat :: MetAt(script, i) == Goes
  {
  }

  /** Fewer than twelve contended attempts are outlasted by the first statement. */
  lemma ContentionPasses(script: seq<Attempt>, tries: nat)
    requires 1 <= tries <= 12
    requires forall i :: 0 <= i < tries - 1 ==> MetAt(script, i) == Contended
    requires MetAt(script, tries - 1) == Contended ==> tries == 12
    ensures (exists n :: 0 <= n < 12 && ContendedFirst(script, n)) ==>
      MetAt(script, tries - 1) == Goes && AllGo(Rest(script, tries))
  {
    if n :| 0 <= n < 12 && ContendedFirst(script, n) {
      assert MetAt(script, n) == Goes by {
        assert n < |script| ==> script[n..][0] == script[n];
      }
      assert tries == n + 1;
      forall i | 0 <= i < |Rest(script, tries)|
        ensures Rest(script, tries)[i].outcome == Goes
      {
        assert Rest(script, tries)[i] == script[n..][i + 1];
      }
    }
  }

  /** What happened to the NULLs so far, carried on over more steps. */
  lemma Appended(before: Table, middle: Table, after: Table, h0: seq<Step>, h1: seq<Step>, h2: seq<Step>)
    requires h0 <= h1 <= h2
    requires NullsAccounted(before, middle, h1[|h0|..]) && NullsAccounted(middle, after, h2[|h1|..])
    ensures NullsAccounted(before, after, h2[|h0|..])
    ensures h2[|h0|..] == h1[|h0|..] + h2[|h1|..]
    ensures Sweeps(h2[|h0|..]) == Sweeps(h1[|h0|..]) + Sweeps(h2[|h1|..])
  {
    SuffixSplits(h0, h1, h2);
    AccountedTwice(before, middle, after, h1[|h0|..], h2[|h1|..]);
    SweepsConcat(h1[|h0|..], h2[|h1|..]);
  }

  lemma ResidueIsFresh(t0: Table, origin: Table, h0: seq<Step>, h1: seq<Step>, h2: seq<Step>)
    requires h0 <= h1 <= h2 && forall id <- Nulls(t0) :: id in Written(h1[|h0|..])
    requires Landed(Exactly(Finalize), h2[|h1|..]) && |h1| < |h2| && ResidueAccounted(t0, origin, h2, |h1|)
    ensures FinishedBy(origin, h2, |h0|)
  {
    var first, rest := h1[|h0|..], h2[|h1|..|h2| - 1];
    StillWritten(t0, RunTo(origin, h2[..|h2| - 1]), first, rest);
    assert h2[|h0|..] == first + rest + [h2[|h2| - 1]];
    WrittenConcat(first + rest, [h2[|h2| - 1]]);
  }

  /** A transaction that succeeded is the last thing that happened, after nothing but writes. */
  ghost predicate Landed(st: Statement, steps: seq<Step>) {
    && steps != []
    && OnlyWrites(steps[..|steps| - 1])
    && steps[|steps| - 1].Committed?
    && Executes(st, steps[|steps| - 1].tx)
  }

  ghost predicate Executes(st: Statement, tx: Transaction) {
    match st
    case Exactly(t) => tx == t
    case SweepBatch => tx.FillRows?
  }

  /** What holds right after a transaction commits. */
  ghost predicate Settled(tx: Transaction, t: Table) {
    match tx
    case AddVersion => t.versioned
    case AddColumn => t.hasColumn
    case FillPages(lo, hi) => t.hasColumn && forall id <- Nulls(t) :: !(lo <= t.rows[id].page < hi)
    case FillRows(ids) => t.hasColumn && Nulls(t) !! ids
    case Finalize => t.hasColumn && t.pinned && Nulls(t) == {}
    case DropVersion => !t.versioned
    case DropColumn => !t.hasColumn && !t.pinned
  }

  ghost predicate CarriesReservation(row: Row) {
    row.ceiling == Some(row.reserved) && row.reserved > 0
  }

  /** Only the final transaction pins the column, and it then finds every row carrying its reservation. */
  ghost predicate Pinning(st: Statement, ok: bool, wasPinned: bool, t: Table) {
    && (st != Exactly(Finalize) && st != Exactly(DropColumn) ==> t.pinned == wasPinned)
    && (ok && st == Exactly(Finalize) && !wasPinned ==> forall id <- t.rows :: CarriesReservation(t.rows[id]))
  }

  lemma CommitSettles(t: Table, tx: Transaction)
    requires Apply(t, tx).Some?
    ensures Settled(tx, StepTo(t, Committed(tx)))
  {
    FillAll(t);
  }

  lemma WriteAccounted(before: Table, t: Table, since: seq<Step>, step: Step)
    requires step.Served? && NullsAccounted(before, t, since)
    ensures NullsAccounted(before, StepTo(t, step), since + [step])
  {
    assert Written(since + [step]) == Written(since) + Written([step]);
    assert step in [step];
    forall id | id in Nulls(StepTo(t, step)) && id !in Written(since + [step])
      ensures id in before.rows && before.rows[id] == StepTo(t, step).rows[id]
    {
      assert id in Nulls(t);
    }
  }

  lemma CommitAccounted(before: Table, t: Table, since: seq<Step>, tx: Transaction)
    requires NullsAccounted(before, t, since)
    ensures tx.DropColumn? || NullsAccounted(before, StepTo(t, Committed(tx)), since + [Committed(tx)])
  {
    var t' := StepTo(t, Committed(tx));
    assert Written(since + [Committed(tx)]) == Written(since);
    forall id | id in Nulls(t') && id !in Written(since) && !tx.DropColumn?
      ensures id in before.rows && before.rows[id] == t'.rows[id]
    {
      assert id in Nulls(t);
    }
  }

  lemma AccountedTwice(before: Table, middle: Table, after: Table, first: seq<Step>, rest: seq<Step>)
    requires NullsAccounted(before, middle, first) && NullsAccounted(middle, after, rest)
    ensures NullsAccounted(before, after, first + rest)
  {
    assert Written(first + rest) == Written(first) + Written(rest);
    forall id | id in Nulls(after) && id !in Written(first + rest)
      ensures id in before.rows && before.rows[id] == after.rows[id]
    {
      assert id in Nulls(middle);
    }
  }

  lemma StillWritten(before: Table, after: Table, first: seq<Step>, rest: seq<Step>)
    requires forall id <- Nulls(before) :: id in Written(first)
    requires NullsAccounted(before, after, rest)
    ensures forall id <- Nulls(after) :: id in Written(first + rest)
  {
    assert Written(first + rest) == Written(first) + Written(rest);
    forall id | id in Nulls(after) && id !in Written(rest)
      ensures id in Written(first)
    {
      assert id in Nulls(before);
    }
  }
}
