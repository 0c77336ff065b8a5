/**
 The artifact-release settings history: rows are only inserted, each naming the revision it
 supersedes, and `parent_revision` is unique.

 A writer reads the current head, decides, and inserts a row naming the head it read; any number
 of other writers may insert in between. Revision numbers come from a sequence after the read, so
 they exceed every revision the writer saw; numbers lost to refused inserts leave gaps.
 */
module SettingsChain {

  datatype Row = Row(parent: nat, hours: int)

  type Table = map<nat, Row>

  /** The highest revision, 0 when there is none: COALESCE(MAX(revision), 0). */
  ghost predicate IsHead(t: Table, head: nat) {
    && (forall r <- t :: r <= head)
    && (head == 0 || head in t)
  }

  /** PRIMARY KEY (revision), UNIQUE (parent_revision), CHECK (hours BETWEEN 6 AND ceiling). */
  predicate Admits(t: Table, revision: nat, row: Row, ceiling: int) {
    && revision !in t
    && (forall r <- t :: t[r].parent != row.parent)
    && 6 <= row.hours <= ceiling
  }

  // ---------------------------------------------------------------- one line

  ghost function Prior(line: seq<nat>, i: nat): nat
    requires i <= |line|
  {
    if i == 0 then 0 else line[i - 1]
  }

  ghost predicate LinkAt(t: Table, line: seq<nat>, i: nat)
    requires i < |line|
  {
    line[i] in t && t[line[i]].parent == Prior(line, i) && Prior(line, i) < line[i]
  }

  /** `line` lists all revisions, each superseding the one before, the first superseding nothing. */
  ghost predicate Line(t: Table, line: seq<nat>) {
    && (forall i {:trigger LinkAt(t, line, i)} :: 0 <= i < |line| ==> LinkAt(t, line, i))
    && (forall i, j :: 0 <= i < j < |line| ==> line[i] < line[j])
    && (forall r <- t :: r in line)
  }

  ghost predicate Linear(t: Table) {
    exists line :: Line(t, line)
  }

  ghost function LastOf(line: seq<nat>): nat {
    Prior(line, |line|)
  }

  lemma LastIsHead(t: Table, line: seq<nat>)
    requires Line(t, line)
    ensures IsHead(t, LastOf(line))
    ensures forall h: nat :: IsHead(t, h) ==> h == LastOf(line)
  {
    if line != [] {
      var last := line[|line| - 1];
      assert LinkAt(t, line, |line| - 1);
      forall r | r in t
        ensures r <= last
      {
        var i :| 0 <= i < |line| && line[i] == r;
      }
    }
  }

  /** A row naming `p` already exists exactly when `p` is not the end of the line. */
  lemma SupersededIffNotHead(t: Table, line: seq<nat>, p: nat)
    requires Line(t, line) && (p == 0 || p in t)
    ensures (exists r <- t :: t[r].parent == p) <==> p != LastOf(line)
  {
    if p != LastOf(line) {
      var i := 0;
      if p != 0 {
        var k :| 0 <= k < |line| && line[k] == p;
        i := k + 1;
      }
      assert LinkAt(t, line, i);
      assert t[line[i]].parent == p;
    } else {
      forall r | r in t
        ensures t[r].parent != p
      {
        var i :| 0 <= i < |line| && line[i] == r;
        assert LinkAt(t, line, i);
        assert i < |line| - 1 ==> line[i] < line[|line| - 1];
      }
    }
  }

  lemma ExtendLine(t: Table, line: seq<nat>, revision: nat, hours: int)
    requires Line(t, line) && revision > LastOf(line)
    ensures Line(t[revision := Row(LastOf(line), hours)], line + [revision])
  {
    var longer, t' := line + [revision], t[revision := Row(LastOf(line), hours)];
    forall i | 0 <= i < |line|
      ensures line[i] < revision
    {
      assert i < |line| - 1 ==> line[i] < line[|line| - 1];
    }
    forall i | 0 <= i < |longer|
      ensures LinkAt(t', longer, i)
    {
      if i < |line| {
        assert LinkAt(t, line, i);
      }
    }
    forall r | r in t'
      ensures r in longer
    {
      assert r in line || r == revision;
    }
  }

  // ---------------------------------------------------------------- concurrent writers

  /** `seen` collects every head any writer has read; a pending insert names one of them. */
  datatype State = State(table: Table, seen: set<nat>)

  datatype Step = Read(head: nat) | Insert(revision: nat, parent: nat, hours: int)

  function Apply(s: State, step: Step, ceiling: int): State {
    match step
    case Read(head) => s.(seen := s.seen + {head})
    case Insert(revision, parent, hours) =>
      if Admits(s.table, revision, Row(parent, hours), ceiling)
      then s.(table := s.table[revision := Row(parent, hours)])
      else s
  }

  /** A read returns the current head; an insert names a head that was read before its number was drawn. */
  ghost predicate Plausible(s: State, step: Step) {
    match step
    case Read(head) => IsHead(s.table, head)
    case Insert(revision, parent, hours) => parent in s.seen && revision > parent
  }

  ghost predicate Inv(s: State) {
    && Linear(s.table)
    && forall p <- s.seen :: p == 0 || p in s.table
  }

  ghost function RunTo(steps: seq<Step>, ceiling: int): State {
    if steps == [] then State(map[], {}) else Apply(RunTo(steps[..|steps| - 1], ceiling), steps[|steps| - 1], ceiling)
  }

  ghost predicate PlausibleRun(steps: seq<Step>, ceiling: int) {
    steps == [] ||
    (PlausibleRun(steps[..|steps| - 1], ceiling) &&
     Plausible(RunTo(steps[..|steps| - 1], ceiling), steps[|steps| - 1]))
  }

  /** An insert is admitted exactly when the head its writer read is still the head. */
  lemma AdmittedIffCurrent(s: State, revision: nat, parent: nat, hours: int, ceiling: int)
    requires Inv(s) && Plausible(s, Insert(revision, parent, hours))
    ensures Admits(s.table, revision, Row(parent, hours), ceiling) <==> IsHead(s.table, parent) && 6 <= hours <= ceiling
  {
    var line :| Line(s.table, line);
    LastIsHead(s.table, line);
    SupersededIffNotHead(s.table, line, parent);
  }

  lemma StepKeepsInv(s: State, step: Step, ceiling: int)
    requires Inv(s) && Plausible(s, step)
    ensures Inv(Apply(s, step, ceiling))
  {
    if step.Insert? && Admits(s.table, step.revision, Row(step.parent, step.hours), ceiling) {
      var line :| Line(s.table, line);
      LastIsHead(s.table, line);
      SupersededIffNotHead(s.table, line, step.parent);
      ExtendLine(s.table, line, step.revision, step.hours);
    }
  }

  /** Over every interleaving of readers and writers, uniqueness of the parent keeps one line. */
  lemma {:induction false} HistoryStaysLinear(steps: seq<Step>, ceiling: int)
    requires PlausibleRun(steps, ceiling)
    ensures Inv(RunTo(steps, ceiling))
  {
    if steps == [] {
      assert Line(map[], []);
    } else {
      HistoryStaysLinear(steps[..|steps| - 1], ceiling);
      StepKeepsInv(RunTo(steps[..|steps| - 1], ceiling), steps[|steps| - 1], ceiling);
    }
  }

  /**
   In every run, a writer whose head has been superseded is refused, and a current one with hours in
   range is not: its row becomes the new head and nothing else changes.
   */
  lemma StaleWritersAreRefused(steps: seq<Step>, revision: nat, parent: nat, hours: int, ceiling: int)
    requires PlausibleRun(steps, ceiling)
    requires Plausible(RunTo(steps, ceiling), Insert(revision, parent, hours))
    ensures var s := RunTo(steps, ceiling);
      Apply(s, Insert(revision, parent, hours), ceiling).table ==
        if IsHead(s.table, parent) && 6 <= hours <= ceiling then s.table[revision := Row(parent, hours)] else s.table
  {
    HistoryStaysLinear(steps, ceiling);
    AdmittedIffCurrent(RunTo(steps, ceiling), revision, parent, hours, ceiling);
  }

  // ---------------------------------------------------------------- migrations over the history

  class Settings {
    var rows: Table
    ghost var line: seq<nat>

    ghost predicate Valid()
      reads this
    {
      Line(rows, line)
    }

    constructor ()
      ensures Valid() && rows == map[]
    {
      rows, line := map[], [];
    }

    method Head() returns (head: nat)
      requires Valid()
      ensures IsHead(rows, head) && head == LastOf(line)
    {
      head := 0;
      var rest := rows.Keys;
      while rest != {}
        invariant rest <= rows.Keys && (head == 0 || head in rows)
        invariant forall r <- rows :: r in rest || r <= head
        decreases |rest|
      {
        var r :| r in rest;
        head, rest := if r > head then r else head, rest - {r};
      }
      LastIsHead(rows, line);
    }

    /**
     Adopt the 48-hour window: append one revision unless the head already says 48. Its INSERT
     meets the key, the unique parent and the widened bound in every case.
     */
    method AdoptFortyEight(revision: nat)
      requires Valid() && revision > LastOf(line)
      modifies this
      ensures Valid()
      ensures Admits(old(rows), revision, Row(old(LastOf(line)), 48), 48)
      ensures line == old(line) || line == old(line) + [revision]
      ensures LastOf(line) in rows && rows[LastOf(line)].hours == 48
      ensures forall r <- old(rows) :: r in rows && rows[r] == old(rows)[r]
      ensures old(LastOf(line) in rows && rows[LastOf(line)].hours == 48) ==> rows == old(rows)
    {
      var head := Head();
      LastIsHead(rows, line);
      SupersededIffNotHead(rows, line, head);
      var current := if head in rows then rows[head].hours else 0;
      if current != 48 {
        ExtendLine(rows, line, revision, 48);
        rows, line := rows[revision := Row(head, 48)], line + [revision];
      }
    }

    /** Restore the 48-hour ceiling by clamping. */
    method ClampToFortyEight()
      requires Valid()
      modifies this`rows
      ensures Valid() && rows.Keys == old(rows).Keys
      ensures forall r <- rows :: rows[r].parent == old(rows)[r].parent
      ensures forall r <- rows :: rows[r].hours == if old(rows)[r].hours <= 48 then old(rows)[r].hours else 48
    {
      ghost var before := rows;
      rows := map r | r in rows :: if rows[r].hours > 48 then rows[r].(hours := 48) else rows[r];
      forall i | 0 <= i < |line|
        ensures LinkAt(rows, line, i)
      {
        assert LinkAt(before, line, i);
      }
    }
  }

  /** The earlier downgrade deletes instead of clamping. */
  function Deleted(t: Table, bound: int): Table {
    map r | r in t && t[r].hours <= bound :: t[r]
  }

  ghost predicate ParentsSurvive(t: Table, bound: int) {
    forall r <- t :: t[r].hours <= bound && t[r].parent in t ==> t[t[r].parent].hours <= bound
  }

  lemma {:induction false} SurvivorsArePrefix(t: Table, line: seq<nat>, bound: int, i: nat)
    requires Line(t, line) && ParentsSurvive(t, bound) && i < |line| && line[i] in t && t[line[i]].hours <= bound
    ensures forall k :: 0 <= k <= i ==> line[k] in t && t[line[k]].hours <= bound
  {
    assert LinkAt(t, line, i);
    if i > 0 {
      assert LinkAt(t, line, i - 1);
      SurvivorsArePrefix(t, line, bound, i - 1);
    }
  }

  lemma PrefixIsLine(t: Table, line: seq<nat>, bound: int, n: nat)
    requires Line(t, line) && n <= |line|
    requires forall k :: 0 <= k < n ==> line[k] in t && t[line[k]].hours <= bound
    requires forall k :: n <= k < |line| ==> line[k] in t && t[line[k]].hours > bound
    ensures Line(Deleted(t, bound), line[..n])
  {
    forall i | 0 <= i < n
      ensures LinkAt(Deleted(t, bound), line[..n], i)
    {
      assert LinkAt(t, line, i);
    }
    forall r | r in Deleted(t, bound)
      ensures r in line[..n]
    {
      var k :| 0 <= k < |line| && line[k] == r;
      assert k < n && line[..n][k] == r;
    }
  }

  /** Deleting keeps one line exactly when no surviving revision supersedes a deleted one. */
  lemma DeletingKeepsLineIff(t: Table, bound: int)
    requires Linear(t)
    ensures Linear(Deleted(t, bound)) <==> ParentsSurvive(t, bound)
  {
    var line :| Line(t, line);
    forall i | 0 <= i < |line|
      ensures line[i] in t && line[i] > 0
    {
      assert LinkAt(t, line, i);
    }
    if ParentsSurvive(t, bound) {
      var n := 0;
      while n < |line| && t[line[n]].hours <= bound
        invariant n <= |line| && forall k :: 0 <= k < n ==> t[line[k]].hours <= bound
      {
        n := n + 1;
      }
      forall k | n <= k < |line|
        ensures t[line[k]].hours > bound
      {
        if t[line[k]].hours <= bound {
          SurvivorsArePrefix(t, line, bound, k);
        }
      }
      PrefixIsLine(t, line, bound, n);
    }
    if Linear(Deleted(t, bound)) {
      var rest :| Line(Deleted(t, bound), rest);
      forall r | r in t && t[r].hours <= bound && t[r].parent in t
        ensures t[t[r].parent].hours <= bound
      {
        assert r in Deleted(t, bound);
        var i :| 0 <= i < |rest| && rest[i] == r;
        assert LinkAt(Deleted(t, bound), rest, i);
        var k :| 0 <= k < |line| && line[k] == t[r].parent;
        assert i > 0;
        assert LinkAt(Deleted(t, bound), rest, i - 1);
      }
    }
  }

  /** A first revision, the 48-hour window adopted by the migration, and a later return to 24 hours. */
  const SHORTENED_AGAIN: seq<Step> := [
    Read(0), Insert(1, 0, 24), Read(1), Insert(2, 1, 48), Read(2), Insert(3, 2, 24)
  ]

  const SHORTENED_TABLE: Table := map[1 := Row(0, 24), 2 := Row(1, 48), 3 := Row(2, 24)]

  lemma RunOneMore(steps: seq<Step>, ceiling: int, n: nat)
    requires n < |steps|
    ensures RunTo(steps[..n + 1], ceiling) == Apply(RunTo(steps[..n], ceiling), steps[n], ceiling)
    ensures PlausibleRun(steps[..n], ceiling) && Plausible(RunTo(steps[..n], ceiling), steps[n]) ==>
      PlausibleRun(steps[..n + 1], ceiling)
  {
    assert steps[..n + 1][..n] == steps[..n];
  }

  lemma ShortenedIsReached()
    ensures PlausibleRun(SHORTENED_AGAIN, 48) && RunTo(SHORTENED_AGAIN, 48).table == SHORTENED_TABLE
  {
    var steps := SHORTENED_AGAIN;
    assert steps[..0] == [] && steps[..6] == steps;
    RunOneMore(steps, 48, 0);
    RunOneMore(steps, 48, 1);
    assert RunTo(steps[..2], 48) == State(map[1 := Row(0, 24)], {0});
    RunOneMore(steps, 48, 2);
    RunOneMore(steps, 48, 3);
    assert RunTo(steps[..4], 48) == State(map[1 := Row(0, 24), 2 := Row(1, 48)], {0, 1});
    RunOneMore(steps, 48, 4);
    RunOneMore(steps, 48, 5);
  }

  /** A history the application can write, and that the deleting downgrade tears apart. */
  lemma DeletingBreaksLine()
    ensures PlausibleRun(SHORTENED_AGAIN, 48)
    ensures var t := RunTo(SHORTENED_AGAIN, 48).table;
      Linear(t) && !Linear(Deleted(t, 24))
  {
    ShortenedIsReached();
    HistoryStaysLinear(SHORTENED_AGAIN, 48);
    DeletingKeepsLineIff(SHORTENED_TABLE, 24);
    assert SHORTENED_TABLE[3].parent == 2;
  }
}
